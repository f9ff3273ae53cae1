/** The contact book of Contacts_task.c: 26 group lists, their operations, and the file it is saved to. */
module Contacts {
  import opened CStrings
  import opened ContactLists
  import opened Options

  const ALPHABET_COUNT: nat := 26

  type Rows = seq<seq<Entry>>

  // ---------- the file format ----------

  const NAME_TAG: CString := [110, 97, 109, 101, 58]           // name:
  const PHONE_TAG: CString := [112, 104, 111, 110, 101, 58]    // phone:
  const COMMA: Byte := 44
  const SPACE: Byte := 32
  const NEWLINE: Byte := 10

  predicate IsSpace(b: Byte) { b == 32 || 9 <= b <= 13 }

  /** What save_file prints for one entry. */
  function Line(e: Entry): CString {
    NAME_TAG + ([SPACE] + (e.name + [COMMA] + ([SPACE] + (PHONE_TAG + ([SPACE] + (e.phone + [NEWLINE]))))))
  }

  /** The line as fprintf writes it, letter by letter. */
  lemma LineSpelled(e: Entry)
    ensures Line(e) == Spell("name: ") + e.name + Spell(", phone: ") + e.phone + Spell("\n")
    ensures forall b: Byte :: IsSpace(b) <==> b in Spell(" \n\r\t") || b == 11 || b == 12
  {
    assert Spell("name: ") == NAME_TAG + [SPACE] && Spell(", phone: ") == [COMMA] + [SPACE] + PHONE_TAG + [SPACE];
    assert Spell("\n") == [NEWLINE] && Spell(" \n\r\t") == [32, 10, 13, 9];
  }

  function Lines(s: seq<Entry>): CString {
    if s == [] then [] else Line(s[0]) + Lines(s[1..])
  }

  /** A white-space directive of a scanf format. */
  function SkipSpace(t: CString): (r: CString)
    ensures |r| <= |t|
  {
    if t != [] && IsSpace(t[0]) then SkipSpace(t[1..]) else t
  }

  /** A literal of a scanf format. */
  function Literal(t: CString, lit: CString): Option<CString> {
    if lit <= t then Some(t[|lit|..]) else None
  }

  /** %[^,] : as many bytes as there are before a comma. */
  function ToComma(t: CString): (n: nat)
    ensures n <= |t| && COMMA !in t[..n]
  {
    if t == [] || t[0] == COMMA then 0 else 1 + ToComma(t[1..])
  }

  /** %s, behind the white space: as many bytes as there are before the next white space. */
  function ToSpace(t: CString): (n: nat)
    ensures n <= |t|
  {
    if t == [] || IsSpace(t[0]) then 0 else 1 + ToSpace(t[1..])
  }

  datatype Field = Field(text: CString, rest: CString)
  datatype Scanned = Scanned(entry: Entry, rest: CString)

  /** The format up to the name: "name: %[^,]". */
  function ScanName(t: CString): (r: Option<Field>)
    ensures r.Some? ==> |r.value.rest| < |t|
  {
    match Literal(t, NAME_TAG)
    case None => None
    case Some(u) =>
      var v := SkipSpace(u);
      var n := ToComma(v);
      if n == 0 then None else Some(Field(v[..n], v[n..]))
  }

  /** The rest of it: ", phone: %s" and a line end. */
  function ScanPhone(t: CString): (r: Option<Field>)
    ensures r.Some? ==> |r.value.rest| < |t|
  {
    match Literal(t, [COMMA])
    case None => None
    case Some(u) =>
      match Literal(SkipSpace(u), PHONE_TAG)
      case None => None
      case Some(v) =>
        var w := SkipSpace(v);
        var k := ToSpace(w);
        if k == 0 then None else Some(Field(w[..k], SkipSpace(w[k..])))
  }

  /** One call of fscanf with the format of load_file; something only if it assigns both fields. */
  function Scan(t: CString): (r: Option<Scanned>)
    ensures r.Some? ==> |r.value.rest| < |t|
  {
    match ScanName(t)
    case None => None
    case Some(name) =>
      match ScanPhone(name.rest)
      case None => None
      case Some(phone) => Some(Scanned(Entry(name.text, phone.text), phone.rest))
  }

  /** strncpy into a field of the given size. */
  function Fitted(s: CString, size: nat): CString
    requires size > 0
  {
    if |s| < size then s else s[..size - 1]
  }

  /** What load_file stores for a scanned line. */
  function Stored(e: Entry): Entry { Entry(Fitted(e.name, 16), Fitted(e.phone, 32)) }

  function Added(rows: Rows, e: Entry): (r: Rows)
    requires |rows| == ALPHABET_COUNT
    ensures |r| == ALPHABET_COUNT
  {
    var g := NameIndex(e.name);
    if g < 0 then rows else rows[g := Insorted(rows[g], e)]
  }

  function AddedAll(rows: Rows, es: seq<Entry>): (r: Rows)
    requires |rows| == ALPHABET_COUNT
    ensures |r| == ALPHABET_COUNT
    decreases |es|
  {
    if es == [] then rows else AddedAll(Added(rows, es[0]), es[1..])
  }

  /** The entries a text holds, up to the first line that does not scan. */
  function EntriesOf(t: CString): seq<Entry>
    decreases |t|
  {
    match Scan(t)
    case None => []
    case Some(s) => [Stored(s.entry)] + EntriesOf(s.rest)
  }

  // ---------- reading back what was written ----------

  /** A name and number that insert_entry stores and the fields can hold. */
  predicate Fits(e: Entry) {
    && 0 <= NameIndex(e.name) && |e.name| < 16
    && 0 < |e.phone| < 32 && forall i :: 0 <= i < |e.phone| ==> !IsSpace(e.phone[i])
  }

  /** The format can carry it, too. */
  predicate WellFormed(e: Entry) { Fits(e) && COMMA !in e.name }

  lemma {:induction false} ToCommaStops(a: CString, b: CString)
    requires COMMA !in a
    ensures ToComma(a + [COMMA] + b) == |a|
  {
    if a == [] {
      assert (a + [COMMA] + b)[0] == COMMA;
    } else {
      assert (a + [COMMA] + b)[1..] == a[1..] + [COMMA] + b && (a + [COMMA] + b)[0] == a[0];
      ToCommaStops(a[1..], b);
    }
  }

  lemma {:induction false} ToSpaceStops(a: CString, c: Byte, b: CString)
    requires IsSpace(c) && forall i :: 0 <= i < |a| ==> !IsSpace(a[i])
    ensures ToSpace(a + [c] + b) == |a|
  {
    if a == [] {
      assert (a + [c] + b)[0] == c;
    } else {
      assert (a + [c] + b)[1..] == a[1..] + [c] + b && (a + [c] + b)[0] == a[0];
      ToSpaceStops(a[1..], c, b);
    }
  }

  lemma SkipOne(t: CString)
    requires t != [] && !IsSpace(t[0])
    ensures SkipSpace([SPACE] + t) == t && SkipSpace([NEWLINE] + t) == t && SkipSpace(t) == t
  {
    assert ([SPACE] + t)[1..] == t && ([NEWLINE] + t)[1..] == t;
  }

  lemma LiteralAhead(lit: CString, t: CString)
    ensures Literal(lit + t, lit) == Some(t)
  {
    assert (lit + t)[|lit|..] == t;
  }

  /** ScanName behind its literal and the space. */
  lemma NameAhead(v: CString, n: nat)
    requires v != [] && !IsSpace(v[0]) && n == ToComma(v) && n > 0
    ensures ScanName(NAME_TAG + ([SPACE] + v)) == Some(Field(v[..n], v[n..]))
  {
    LiteralAhead(NAME_TAG, [SPACE] + v);
    SkipOne(v);
    hide Literal, SkipSpace, ToComma;
  }

  lemma NameBack(name: CString, t: CString)
    requires 0 <= NameIndex(name) && COMMA !in name
    ensures ScanName(NAME_TAG + ([SPACE] + (name + [COMMA] + t))) == Some(Field(name, [COMMA] + t))
  {
    var v := name + [COMMA] + t;
    assert name != [] && !IsSpace(name[0]);
    hide NameIndex, ScanName;
    assert v[0] == name[0];
    ToCommaStops(name, t);
    NameAhead(v, |name|);
    assert v[..|name|] == name && v[|name|..] == [COMMA] + t;
  }

  /** ScanPhone behind its literals and the spaces. */
  lemma PhoneAhead(w: CString, k: nat)
    requires w != [] && !IsSpace(w[0]) && k == ToSpace(w) && k > 0
    ensures ScanPhone([COMMA] + ([SPACE] + (PHONE_TAG + ([SPACE] + w)))) == Some(Field(w[..k], SkipSpace(w[k..])))
  {
    var v := PHONE_TAG + ([SPACE] + w);
    LiteralAhead([COMMA], [SPACE] + v);
    assert v[0] == PHONE_TAG[0];
    SkipOne(v);
    LiteralAhead(PHONE_TAG, [SPACE] + w);
    SkipOne(w);
    hide Literal, SkipSpace, ToSpace;
  }

  lemma PhoneBack(phone: CString, t: CString)
    requires 0 < |phone| && (forall i :: 0 <= i < |phone| ==> !IsSpace(phone[i])) && (t == [] || !IsSpace(t[0]))
    ensures ScanPhone([COMMA] + ([SPACE] + (PHONE_TAG + ([SPACE] + (phone + [NEWLINE] + t))))) == Some(Field(phone, t))
  {
    var w := phone + [NEWLINE] + t;
    ToSpaceStops(phone, NEWLINE, t);
    LineEnds(t);
    hide ScanPhone, ToSpace, SkipSpace, IsSpace;
    assert w[0] == phone[0];
    PhoneAhead(w, |phone|);
    assert w[..|phone|] == phone && w[|phone|..] == [NEWLINE] + t;
  }

  lemma LineEnds(t: CString)
    requires t == [] || !IsSpace(t[0])
    ensures SkipSpace([NEWLINE] + t) == t && SkipSpace(t) == t
  {
    assert ([NEWLINE] + t)[1..] == t;
  }

  lemma Regroup(a: CString, b: CString, c: CString, t: CString)
    ensures (a + (b + c)) + t == a + (b + (c + t)) && (a + b + c) + t == a + b + (c + t)
  {
  }

  lemma LineSplit(e: Entry, t: CString)
    ensures Line(e) + t ==
      NAME_TAG + ([SPACE] + (e.name + [COMMA] + ([SPACE] + (PHONE_TAG + ([SPACE] + (e.phone + [NEWLINE] + t))))))
  {
    var y := [SPACE] + (e.phone + [NEWLINE]);
    var x := [SPACE] + (PHONE_TAG + y);
    Regroup([SPACE], e.phone, [NEWLINE], t);
    assert y + t == [SPACE] + (e.phone + [NEWLINE] + t);
    Regroup([SPACE], PHONE_TAG, y, t);
    Regroup(e.name, [COMMA], x, t);
    Regroup(NAME_TAG, [SPACE], e.name + [COMMA] + x, t);
  }

  /** A line is scanned back to its entry, whatever line follows. */
  lemma ScanLine(e: Entry, t: CString)
    requires WellFormed(e) && (t == [] || t[0] == NAME_TAG[0])
    ensures Scan(Line(e) + t) == Some(Scanned(e, t))
  {
    var tail := [SPACE] + (PHONE_TAG + ([SPACE] + (e.phone + [NEWLINE] + t)));
    NameBack(e.name, tail);
    PhoneBack(e.phone, t);
    LineSplit(e, t);
  }

  lemma LinesStart(s: seq<Entry>)
    ensures Lines(s) == [] || Lines(s)[0] == NAME_TAG[0]
  {
    if s != [] { assert Lines(s)[0] == Line(s[0])[0]; }
  }

  lemma {:induction false} LinesRead(s: seq<Entry>)
    requires forall i :: 0 <= i < |s| ==> WellFormed(s[i])
    ensures EntriesOf(Lines(s)) == s
  {
    if s != [] {
      var t := Lines(s[1..]);
      LinesStart(s[1..]);
      ScanLine(s[0], t);
      StoredWhole(s[0]);
      hide Scan, WellFormed, Line, Stored;
      LinesRead(s[1..]);
      assert EntriesOf(Lines(s)) == [s[0]] + s[1..];
    }
  }

  lemma StoredWhole(e: Entry)
    requires WellFormed(e)
    ensures Stored(e) == e
  {
  }

  /** The entries of all groups in the order of the file. */
  function Flat(rows: Rows): seq<Entry> {
    if rows == [] then [] else rows[0] + Flat(rows[1..])
  }

  /** A book as insertions make it: in each group names of its letter, in order. */
  ghost predicate Bookish(rows: Rows) {
    && |rows| == ALPHABET_COUNT
    && forall g :: 0 <= g < |rows| ==> GroupOf(g, rows[g])
  }

  ghost predicate GroupOf(g: int, s: seq<Entry>) {
    (forall i :: 0 <= i < |s| ==> NameIndex(s[i].name) == g) && Sorted(s)
  }

  // ---------- what loading does to a group ----------

  /** A group after its entries came in one by one. */
  function Filled(s: seq<Entry>): seq<Entry> {
    if s == [] then [] else Insorted(Filled(s[..|s| - 1]), s[|s| - 1])
  }

  /** All entries of one name, from `i` up to `j`. */
  ghost predicate NameRun(s: seq<Entry>, i: nat, j: nat) {
    && i < j <= |s| && (forall k :: i <= k < j ==> s[k].name == s[i].name)
    && (i > 0 ==> s[i - 1].name != s[i].name) && (j < |s| ==> s[j].name != s[i].name)
  }

  /** The entries of each name read the same both ways. */
  ghost predicate Mirrored(s: seq<Entry>) {
    forall i: nat, j: nat, k: nat :: NameRun(s, i, j) && i <= k < j ==> s[k] == s[i + j - 1 - k]
  }

  lemma {:induction false} RunStart(s: seq<Entry>, j: nat) returns (i: nat)
    requires 0 < j <= |s|
    ensures i < j && (forall k :: i <= k < j ==> s[k].name == s[i].name) && (i > 0 ==> s[i - 1].name != s[i].name)
  {
    i := j - 1;
    while i > 0 && s[i - 1].name == s[i].name
      invariant i < j && forall k :: i <= k < j ==> s[k].name == s[i].name
    {
      i := i - 1;
    }
  }

  /** Every entry is in one run. */
  lemma RunAround(s: seq<Entry>, k: nat) returns (i: nat, j: nat)
    requires k < |s|
    ensures NameRun(s, i, j) && i <= k < j
  {
    i := RunStart(s, k + 1);
    j := k + 1;
    while j < |s| && s[j].name == s[i].name
      invariant k < j <= |s| && forall l :: i <= l < j ==> s[l].name == s[i].name
    {
      j := j + 1;
    }
  }

  /** Each run comes in backwards. */
  ghost predicate Turned(s: seq<Entry>, f: seq<Entry>) {
    && |f| == |s|
    && forall i: nat, j: nat, k: nat :: NameRun(s, i, j) && i <= k < j ==> f[k] == s[i + j - 1 - k]
  }

  lemma TurnedNames(s: seq<Entry>, f: seq<Entry>)
    requires Turned(s, f)
    ensures forall k :: 0 <= k < |s| ==> f[k].name == s[k].name
  {
    forall k | 0 <= k < |s| ensures f[k].name == s[k].name {
      var i, j := RunAround(s, k);
    }
  }

  /** In a sorted group with `e` behind it, the place of `e` is where its run begins. */
  lemma LastPlace(s: seq<Entry>, f: seq<Entry>, e: Entry, r: nat)
    requires Sorted(s + [e]) && |f| == |s| && forall k :: 0 <= k < |s| ==> f[k].name == s[k].name
    requires r <= |s| && (forall k :: r <= k < |s| ==> s[k].name == e.name) && (r > 0 ==> s[r - 1].name != e.name)
    ensures PlaceOf(f, e.name) == r
  {
    var u := s + [e];
    if r < |s| { StrCmpZero(e.name, f[r].name); }
    forall i | 0 <= i < r ensures StrCmp(e.name, f[i].name) > 0 {
      assert StrCmp(u[i].name, u[r - 1].name) <= 0 by {
        if i == r - 1 { StrCmpZero(u[i].name, u[i].name); }
      }
      assert StrCmp(u[r - 1].name, u[|s|].name) <= 0;
      StrCmpZero(s[r - 1].name, e.name);
      CmpLess(s[i].name, s[r - 1].name, e.name);
      StrCmpFlip(s[i].name, e.name);
    }
    hide StrCmp, Sorted;
    OnlyPlace(f, e.name, r);
  }

  lemma CmpLess(a: CString, b: CString, c: CString)
    requires StrCmp(a, b) <= 0 && StrCmp(b, c) < 0
    ensures StrCmp(a, c) < 0
  {
    StrCmpZero(a, b);
    if StrCmp(a, b) < 0 { StrCmpTrans(a, b, c); }
  }

  /** A run of `s` with `e` behind it is a run of `s`, unless it is the one of `e`. */
  lemma RunBefore(s: seq<Entry>, e: Entry, r: nat, i: nat, j: nat)
    requires NameRun(s + [e], i, j)
    requires r <= |s| && (forall k :: r <= k < |s| ==> s[k].name == e.name) && (r > 0 ==> s[r - 1].name != e.name)
    ensures if j <= |s| then j <= r && NameRun(s, i, j) else i == r
  {
    var u := s + [e];
    assert forall k :: 0 <= k < |s| ==> u[k] == s[k];
    assert u[|s|] == e;
    assert u[j - 1].name == u[i].name;
  }

  lemma {:induction false} FilledTurns(s: seq<Entry>)
    requires Sorted(s)
    ensures Turned(s, Filled(s))
    decreases |s|
  {
    if s != [] {
      var n := |s| - 1;
      var t, e, f := s[..n], s[n], Filled(s[..n]);
      assert s == t + [e];
      FilledTurns(t);
      TurnedNames(t, f);
      var r := RunStart(s, |s|);
      LastPlace(t, f, e, r);
      TurnStep(t, f, e, r);
    }
  }

  lemma TurnStep(t: seq<Entry>, f: seq<Entry>, e: Entry, r: nat)
    requires Turned(t, f) && r <= |t| && (forall k :: r <= k < |t| ==> t[k].name == e.name)
    requires (r > 0 ==> t[r - 1].name != e.name) && PlaceOf(f, e.name) == r
    ensures Turned(t + [e], Insorted(f, e))
  {
    var s, u := t + [e], Insorted(f, e);
    hide PlaceOf;
    assert forall k :: 0 <= k < |s| ==> u[k] == if k < r then f[k] else if k == r then e else f[k - 1];
    forall i: nat, j: nat, k: nat | NameRun(s, i, j) && i <= k < j ensures u[k] == s[i + j - 1 - k] {
      RunBefore(t, e, r, i, j);
      if j > |t| && k > r {
        assert NameRun(t, r, |t|);
        assert f[k - 1] == t[r + |t| - 1 - (k - 1)];
      }
    }
  }

  lemma OneTurn(s: seq<Entry>, f: seq<Entry>)
    requires Turned(s, f) && Mirrored(s)
    ensures f == s
  {
    forall k | 0 <= k < |s| ensures f[k] == s[k] {
      var i, j := RunAround(s, k);
      hide NameRun;
      assert s[k] == s[i + j - 1 - k];
    }
  }

  lemma SelfTurned(s: seq<Entry>)
    ensures Turned(s, s) <==> Mirrored(s)
  {
    hide NameRun;
  }

  /** A group comes back as it was exactly if the entries of each name read the same both ways. */
  lemma FilledBack(s: seq<Entry>)
    requires Sorted(s)
    ensures Filled(s) == s <==> Mirrored(s)
  {
    hide Filled, Sorted, Turned, Mirrored;
    FilledTurns(s);
    SelfTurned(s);
    if Mirrored(s) { OneTurn(s, Filled(s)); }
  }

  // ---------- saving and loading a book ----------

  lemma {:induction false} AddedAllSplit(rows: Rows, a: seq<Entry>, b: seq<Entry>)
    requires |rows| == ALPHABET_COUNT
    ensures AddedAll(rows, a + b) == AddedAll(AddedAll(rows, a), b)
    decreases |a|
  {
    if a == [] {
      assert a + b == b;
    } else {
      assert (a + b)[0] == a[0] && (a + b)[1..] == a[1..] + b;
      AddedAllSplit(Added(rows, a[0]), a[1..], b);
    }
  }

  lemma AddedAllLast(rows: Rows, s: seq<Entry>, e: Entry)
    requires |rows| == ALPHABET_COUNT
    ensures AddedAll(rows, s + [e]) == Added(AddedAll(rows, s), e)
  {
    AddedAllSplit(rows, s, [e]);
    assert [e][1..] == [];
  }

  lemma {:induction false} FillGroup(rows: Rows, g: nat, s: seq<Entry>)
    requires |rows| == ALPHABET_COUNT && g < ALPHABET_COUNT && rows[g] == []
    requires forall i :: 0 <= i < |s| ==> NameIndex(s[i].name) == g
    ensures AddedAll(rows, s) == rows[g := Filled(s)]
    decreases |s|
  {
    if s == [] {
      assert rows[g := []] == rows;
    } else {
      var t, e := s[..|s| - 1], s[|s| - 1];
      assert s == t + [e];
      FillGroup(rows, g, t);
      AddedAllLast(rows, t, e);
    }
  }

  function Empty(): Rows { seq(ALPHABET_COUNT, _ => []) }

  function AllFilled(book: Rows): Rows { seq(|book|, g requires 0 <= g < |book| => Filled(book[g])) }

  lemma {:induction false} FillFrom(book: Rows, g: nat, rows: Rows)
    requires Bookish(book) && g <= ALPHABET_COUNT && |rows| == ALPHABET_COUNT
    requires forall k :: 0 <= k < ALPHABET_COUNT ==> rows[k] == if k < g then Filled(book[k]) else []
    ensures AddedAll(rows, Flat(book[g..])) == AllFilled(book)
    decreases ALPHABET_COUNT - g
  {
    if g == ALPHABET_COUNT {
      assert rows == AllFilled(book);
    } else {
      assert book[g..][0] == book[g] && book[g..][1..] == book[g + 1..];
      hide Filled, NameIndex, Sorted;
      FillGroup(rows, g, book[g]);
      AddedAllSplit(rows, book[g], Flat(book[g + 1..]));
      FillFrom(book, g + 1, rows[g := Filled(book[g])]);
    }
  }

  /** No name holds a comma. */
  ghost predicate CommaFree(s: seq<Entry>) {
    forall i :: 0 <= i < |s| ==> COMMA !in s[i].name
  }

  /** Whatever a text holds, no name read from it has a comma. */
  lemma {:induction false} ReadCommaFree(t: CString)
    ensures CommaFree(EntriesOf(t))
    decreases |t|
  {
    if Scan(t).Some? { ReadCommaFree(Scan(t).value.rest); }
  }

  ghost predicate FreeRows(rows: Rows) {
    forall g :: 0 <= g < |rows| ==> CommaFree(rows[g])
  }

  lemma {:induction false} AddedCommaFree(rows: Rows, s: seq<Entry>)
    requires |rows| == ALPHABET_COUNT && FreeRows(rows) && CommaFree(s)
    ensures FreeRows(AddedAll(rows, s))
    decreases |s|
  {
    if s != [] {
      hide NameIndex, PlaceOf;
      AddedCommaFree(Added(rows, s[0]), s[1..]);
    }
  }

  ghost predicate AllFit(rows: Rows) {
    forall g, i :: 0 <= g < |rows| && 0 <= i < |rows[g]| ==> Fits(rows[g][i])
  }

  lemma {:induction false} FlatWellFormed(rows: Rows)
    requires AllFit(rows) && FreeRows(rows)
    ensures forall i :: 0 <= i < |Flat(rows)| ==> WellFormed(Flat(rows)[i])
  {
    hide Fits;
    if rows != [] {
      assert forall g :: 0 <= g < |rows| - 1 ==> rows[1..][g] == rows[g + 1];
      FlatWellFormed(rows[1..]);
      assert CommaFree(rows[0]);
    }
  }

  /** The book read back from the file of a book. */
  function Reloaded(book: Rows): Rows { AddedAll(Empty(), EntriesOf(Lines(Flat(book)))) }

  /** Without commas, loading a saved book turns the entries of each name around and does nothing else. */
  lemma LoadTurns(book: Rows)
    requires Bookish(book) && AllFit(book) && FreeRows(book)
    ensures Reloaded(book) == AllFilled(book)
  {
    FlatWellFormed(book);
    hide Fits, Flat, Lines, EntriesOf;
    LinesRead(Flat(book));
    FillFrom(book, 0, Empty());
    assert book[0..] == book;
  }

  /** For every book that insertions make: saving it and loading the text into an empty book gives it back
      exactly if no name holds a comma and the entries of each name read the same both ways. */
  lemma RoundTrip(book: Rows)
    requires Bookish(book) && AllFit(book)
    ensures Reloaded(book) == book <==> FreeRows(book) && forall g :: 0 <= g < |book| ==> Mirrored(book[g])
  {
    hide AllFit, Flat, Lines, EntriesOf, AddedAll, Filled, Mirrored, NameIndex, Sorted;
    if FreeRows(book) {
      LoadTurns(book);
      forall g | 0 <= g < |book| ensures AllFilled(book)[g] == book[g] <==> Mirrored(book[g]) {
        assert GroupOf(g, book[g]);
        FilledBack(book[g]);
      }
      assert AllFilled(book) == book <==> forall g :: 0 <= g < |book| ==> AllFilled(book)[g] == book[g];
    } else {
      ReadCommaFree(Lines(Flat(book)));
      AddedCommaFree(Empty(), EntriesOf(Lines(Flat(book))));
    }
  }

  ghost predicate NoNameTwice(s: seq<Entry>) {
    forall i, j :: 0 <= i < j < |s| ==> s[i].name != s[j].name
  }

  /** A book of distinct names without commas comes back. */
  lemma DistinctComesBack(book: Rows)
    requires Bookish(book) && AllFit(book) && FreeRows(book) && forall g :: 0 <= g < |book| ==> NoNameTwice(book[g])
    ensures Reloaded(book) == book
  {
    hide AllFit, Bookish, Reloaded, CommaFree;
    RoundTrip(book);
    forall g | 0 <= g < |book| ensures Mirrored(book[g]) {
      var s := book[g];
      forall i: nat, j: nat, k: nat | NameRun(s, i, j) && i <= k < j ensures s[k] == s[i + j - 1 - k] {
        assert NoNameTwice(s) && s[i].name == s[j - 1].name;
      }
    }
  }

  /** With one name twice it does not: the two entries come back in the other order. */
  lemma TwinsTurnAround(a: Entry, b: Entry)
    requires Fits(a) && Fits(b) && a.name == b.name && COMMA !in a.name && a.phone != b.phone
    ensures var g := NameIndex(a.name);
      Bookish(Empty()[g := [a, b]]) && Reloaded(Empty()[g := [a, b]]) == Empty()[g := [b, a]] != Empty()[g := [a, b]]
  {
    var g := NameIndex(a.name);
    PairTurns(a, b);
    hide Fits, NameIndex, Reloaded, Filled, Sorted;
    OneGroup(g, [a, b]);
    hide Bookish, AllFilled;
    LoadTurns(Empty()[g := [a, b]]);
    assert Empty()[g := [b, a]][g][0] != Empty()[g := [a, b]][g][0];
  }

  lemma PairTurns(a: Entry, b: Entry)
    requires a.name == b.name
    ensures Filled([]) == [] && Filled([a, b]) == [b, a] && Sorted([a, b])
  {
    var s := [a, b];
    StrCmpZero(a.name, b.name);
    FilledTurns(s);
    assert NameRun(s, 0, 2);
    hide NameIndex, Filled, StrCmp;
  }

  lemma OneGroup(g: nat, s: seq<Entry>)
    requires g < ALPHABET_COUNT && Filled([]) == [] && Sorted(s)
    requires forall i :: 0 <= i < |s| ==> NameIndex(s[i].name) == g && Fits(s[i]) && COMMA !in s[i].name
    ensures Bookish(Empty()[g := s]) && AllFit(Empty()[g := s]) && FreeRows(Empty()[g := s])
    ensures AllFilled(Empty()[g := s]) == Empty()[g := Filled(s)]
  {
    hide NameIndex, Fits, Filled, Sorted;
    var rows: Rows := Empty()[g := s];
    OneFilled(g, s);
    assert GroupOf(g, rows[g]) && CommaFree(rows[g]);
    forall k | 0 <= k < |rows| ensures GroupOf(k, rows[k]) && CommaFree(rows[k]) {
      if k != g { NobodyIn(k); }
    }
    assert AllFit(rows);
  }

  lemma NobodyIn(k: int)
    ensures GroupOf(k, []) && CommaFree([])
  {
  }

  lemma OneFilled(g: nat, s: seq<Entry>)
    requires g < ALPHABET_COUNT && Filled([]) == []
    ensures AllFilled(Empty()[g := s]) == Empty()[g := Filled(s)]
  {
    hide Filled;
  }

  lemma InsortedMembers(s: seq<Entry>, e: Entry)
    ensures forall i :: 0 <= i < |Insorted(s, e)| ==> Insorted(s, e)[i] == e || Insorted(s, e)[i] in s
  {
    hide PlaceOf;
  }

  lemma AddedKeeps(rows: Rows, e: Entry)
    requires Bookish(rows) && AllFit(rows) && Fits(e)
    ensures Bookish(Added(rows, e)) && AllFit(Added(rows, e))
  {
    var g := NameIndex(e.name);
    hide NameIndex, Insorted, Sorted;
    InsortedSorted(rows[g], e);
    InsortedMembers(rows[g], e);
    assert forall x :: x in rows[g] ==> NameIndex(x.name) == g && Fits(x);
  }

  /** What insertions of fitting entries make is such a book. */
  lemma {:induction false} MadeByInsertions(rows: Rows, s: seq<Entry>)
    requires Bookish(rows) && AllFit(rows) && forall i :: 0 <= i < |s| ==> Fits(s[i])
    ensures Bookish(AddedAll(rows, s)) && AllFit(AddedAll(rows, s))
    decreases |s|
  {
    assert |rows| == ALPHABET_COUNT;
    hide Added, Fits, Bookish, AllFit;
    if s != [] {
      AddedKeeps(rows, s[0]);
      MadeByInsertions(Added(rows, s[0]), s[1..]);
    }
  }

  // ---------- the book ----------

  function Total(rows: Rows): nat {
    if rows == [] then 0 else |rows[0]| + Total(rows[1..])
  }

  lemma {:induction false} TotalChanged(rows: Rows, g: nat, s: seq<Entry>)
    requires g < |rows|
    ensures Total(rows[g := s]) == Total(rows) - |rows[g]| + |s|
  {
    if g == 0 {
      assert rows[g := s][1..] == rows[1..];
    } else {
      assert rows[g := s][1..] == rows[1..][g - 1 := s];
      TotalChanged(rows[1..], g - 1, s);
    }
  }

  lemma {:induction false} TotalFlat(rows: Rows)
    ensures Total(rows) == |Flat(rows)|
  {
    if rows != [] { TotalFlat(rows[1..]); }
  }

  ghost function RowsOf(lists: seq<seq<Person>>): (r: Rows)
    ensures |r| == |lists| && forall g :: 0 <= g < |lists| ==> r[g] == Entries(lists[g])
  {
    seq(|lists|, g requires 0 <= g < |lists| => Entries(lists[g]))
  }

  ghost function PersonsOf(lists: seq<seq<Person>>): set<Person> {
    set g, n | 0 <= g < |lists| && n in lists[g] :: n
  }

  lemma PutAmong(lists: seq<seq<Person>>, g: nat, place: nat, p: Person)
    requires g < |lists| && place <= |lists[g]|
    ensures PersonsOf(lists[g := With(lists[g], place, p)]) == PersonsOf(lists) + {p}
  {
    var c, lists' := lists[g], lists[g := With(lists[g], place, p)];
    WithMembersOnly(c, place, p);
    assert lists'[g] == With(c, place, p) && p in lists'[g];
    forall n | n in PersonsOf(lists) ensures n in PersonsOf(lists') {
      var k :| 0 <= k < |lists| && n in lists[k];
      assert n in lists'[k];
    }
    forall n | n in PersonsOf(lists') ensures n in PersonsOf(lists) || n == p {
      var k :| 0 <= k < |lists'| && n in lists'[k];
      assert n == p || n in lists[k];
    }
  }

  lemma RowsPut(lists: seq<seq<Person>>, g: nat, d: seq<Person>)
    requires g < |lists|
    ensures RowsOf(lists[g := d]) == RowsOf(lists)[g := Entries(d)]
    ensures Total(RowsOf(lists[g := d])) == Total(RowsOf(lists)) - |lists[g]| + |d|
  {
    TotalChanged(RowsOf(lists), g, Entries(d));
    assert RowsOf(lists[g := d]) == RowsOf(lists)[g := Entries(d)];
  }

  ghost function NoLists(): seq<seq<Person>> { seq(ALPHABET_COUNT, _ => []) }

  class Book {
    const groups: array<Person?>
    var count: int
    ghost var lists: seq<seq<Person>>

    constructor ()
      ensures Valid() && Counted() && Rows() == Empty() && fresh(groups) && PersonsOf(lists) == {}
    {
      groups := new Person?[ALPHABET_COUNT](_ => null);
      count := 0;
      lists := NoLists();
      NoneTotal();
      EmptyGroup();
      new;
      hide Total, NameIndex, NoLists, Group, PersonsOf;
    }

    ghost predicate Valid()
      reads this`lists, groups, PersonsOf(lists)
    {
      && groups.Length == |lists| == ALPHABET_COUNT
      && forall g :: 0 <= g < ALPHABET_COUNT ==>
        (forall n :: n in lists[g] ==> n in PersonsOf(lists)) && Group(g, lists[g], groups[g])
    }

    /** The book as rows of entries. */
    ghost function Rows(): Rows
      reads this`lists
    {
      RowsOf(lists)
    }

    ghost predicate Counted()
      reads this`lists, this`count
    {
      count == Total(Rows())
    }

    /** A node of another group, or a new one, is not in this group. */
    lemma Apart(g: nat, x: Person)
      requires Valid() && g < ALPHABET_COUNT && x !in PersonsOf(lists)
      ensures forall k :: 0 <= k < ALPHABET_COUNT ==> x !in lists[k] && forall n :: n in lists[k] ==> n in PersonsOf(lists)
      ensures forall k :: 0 <= k < ALPHABET_COUNT && k != g ==> forall n :: n in lists[k] ==> n !in lists[g]
    {
    }

    /** insert_entry: the entry gets into the group of its letter; anything else is refused. */
    method Insert(name: CString, phone: CString) returns (code: int)
      requires Valid()
      modifies this, groups, PersonsOf(lists)
      ensures Valid() && fresh(PersonsOf(lists) - old(PersonsOf(lists)))
      ensures code == if NameIndex(name) < 0 then -3 else 0
      ensures Rows() == Added(old(Rows()), Entry(name, phone)) && forall g :: 0 <= g < ALPHABET_COUNT ==> ByName(Rows()[g])
      ensures count == old(count) + (if code == 0 then 1 else 0) && (old(Counted()) ==> Counted())
    {
      hide Group, Insorted, NameIndex, Total;
      hide ByName;
      InNameOrder();
      var index := NameIndex(name);
      if index < 0 {
        return -3;
      }
      var p := new Person(name, phone);
      PutIn(index, p);
      InNameOrder();
      count := count + 1;
      code := 0;
    }

    /** In every group the entries stand in the order of the names' bytes. */
    lemma InNameOrder()
      requires Valid()
      ensures |Rows()| == ALPHABET_COUNT && forall g :: 0 <= g < ALPHABET_COUNT ==> ByName(Rows()[g])
    {
      Ordered();
      hide ByName, Sorted, NameIndex;
      forall g | 0 <= g < ALPHABET_COUNT ensures ByName(Rows()[g]) {
        assert GroupOf(g, Rows()[g]);
        SortedByName(Rows()[g]);
      }
    }

    /** The call of person_insert on the head of a group. */
    method PutIn(g: nat, p: Person)
      requires Valid() && g < ALPHABET_COUNT && NameIndex(p.name) == g && p !in PersonsOf(lists)
      modifies p, groups, PersonsOf(lists), this`lists
      ensures Valid() && PersonsOf(lists) == old(PersonsOf(lists)) + {p}
      ensures Rows() == Added(old(Rows()), Entry(p.name, p.phone)) && Total(Rows()) == Total(old(Rows())) + 1
    {
      hide Group, With, Insorted, PlaceOf, NameIndex;
      ghost var c := lists[g];
      Apart(g, p);
      ghost var place;
      var head;
      head, place := PersonInsert(groups[g], p, g, c);
      forall k | 0 <= k < ALPHABET_COUNT && k != g ensures Group(k, lists[k], groups[k]) {
        assert old(Group(k, lists[k], groups[k]));
        assert forall i :: 0 <= i < |lists[k]| ==> lists[k][i] !in c && lists[k][i] != p;
      }
      WithMembersOnly(c, place, p);
      groups[g] := head;
      ghost var d := With(c, place, p);
      PutAmong(lists, g, place, p);
      RowsPut(lists, g, d);
      lists := lists[g := d];
    }

    /** A name can only be in the group of its letter. */
    lemma OnlyInItsGroup(name: CString)
      requires Valid()
      ensures Has(Rows(), name) <==> NameIndex(name) >= 0 && exists n :: n in lists[NameIndex(name)] && n.name == name
    {
      hide Linked, Sorted, NameIndex;
      var g := NameIndex(name);
      if Has(Rows(), name) {
        var k, i :| 0 <= k < ALPHABET_COUNT && 0 <= i < |Rows()[k]| && Rows()[k][i].name == name;
        assert Group(k, lists[k], groups[k]) && lists[k][i] in lists[k];
      }
      if g >= 0 && exists n :: n in lists[g] && n.name == name {
        var n :| n in lists[g] && n.name == name;
        var i :| 0 <= i < |lists[g]| && lists[g][i] == n;
        assert Rows()[g][i].name == name;
      }
    }

    /** person_search_global: finds a name exactly if it is stored. */
    method Search(name: CString) returns (item: Person?)
      requires Valid()
      ensures item != null <==> Has(Rows(), name)
      ensures item != null ==> item in PersonsOf(lists) && item.name == name
    {
      OnlyInItsGroup(name);
      var index := NameIndex(name);
      if index < 0 {
        return null;
      }
      ghost var i;
      item, i := SearchGroup(index, name);
    }

    /** delete_entry: takes the first entry of that name out, or nothing. */
    method Delete(name: CString) returns (code: int)
      requires Valid()
      modifies this, groups, PersonsOf(lists)
      ensures Valid() && (code == 0 || code == -2) && (code == 0 <==> Has(old(Rows()), name))
      ensures PersonsOf(lists) <= old(PersonsOf(lists))
      ensures code == -2 ==> Rows() == old(Rows()) && count == old(count)
      ensures code == 0 ==> FirstTaken(old(Rows()), Rows(), name) && count == old(count) - 1
      ensures old(Counted()) ==> Counted()
    {
      hide Linked, Sorted, Has, Group, Total, Without, NameIndex, FirstTaken;
      OnlyInItsGroup(name);
      var index := NameIndex(name);
      if index < 0 {
        return -2;
      }
      var ps, i := SearchGroup(index, name);
      if ps == null {
        return -2;
      }
      FirstIs(lists, name, i);
      TakeOut(index, ps, i);
      count := count - 1;
      code := 0;
    }

    lemma Ordered()
      requires Valid()
      ensures Bookish(Rows())
    {
      hide Linked, NameIndex, Sorted;
      forall g | 0 <= g < ALPHABET_COUNT ensures GroupOf(g, Rows()[g]) {
        assert Group(g, lists[g], groups[g]);
        forall i | 0 <= i < |lists[g]| ensures NameIndex(Rows()[g][i].name) == g { assert lists[g][i] in lists[g]; }
      }
    }

    lemma GroupAt(g: nat)
      requires Valid() && g < ALPHABET_COUNT
      ensures groups.Length == |lists| == |Rows()| == ALPHABET_COUNT && Rows()[g] == Entries(lists[g])
      ensures Linked(lists[g], groups[g], Snap(lists[g]))
    {
    }

    /** save_file: one line for each entry, group by group. */
    method Save() returns (text: CString, saved: nat)
      requires Valid()
      ensures text == Lines(Flat(Rows())) && saved == Total(Rows())
    {
      GroupAt(0);
      hide Line, Lines, Flat, Valid, Rows, Entries, Total, Linked;
      ghost var rows := Rows();
      NoRows(rows);
      text, saved := [], 0;
      for i := 0 to ALPHABET_COUNT
        invariant text == Lines(Flat(rows[..i])) && saved == |Flat(rows[..i])|
      {
        GroupAt(i);
        FlatStep(rows, i);
        var more;
        text, more := SaveList(groups[i], text, lists[i], Flat(rows[..i]));
        saved := saved + more;
      }
      AllRows(rows);
    }

    /** load_file: every line up to the first that does not scan is inserted.  The count is set to what was
        loaded, which is right exactly if the book was empty before. */
    method Load(text: CString)
      requires Valid()
      modifies this, groups, PersonsOf(lists)
      ensures Valid() && fresh(PersonsOf(lists) - old(PersonsOf(lists)))
      ensures Rows() == AddedAll(old(Rows()), EntriesOf(text))
      ensures Counted() <==> Total(old(Rows())) == 0
    {
      hide Group, NameIndex, Total, Scan, Stored, Insorted;
      var rest, loaded, scanned := text, 0, Scan(text);
      while scanned.Some?
        invariant Valid() && fresh(PersonsOf(lists) - old(PersonsOf(lists)))
        invariant scanned == Scan(rest)
        invariant AddedAll(old(Rows()), EntriesOf(text)) == AddedAll(Rows(), EntriesOf(rest))
        invariant Total(Rows()) == Total(old(Rows())) + loaded
        decreases |rest|
      {
        ghost var before := Rows();
        var e := Stored(scanned.value.entry);
        var p := new Person(e.name, e.phone);
        var index := NameIndex(p.name);
        StepOfLoad(before, rest);
        if index >= 0 {
          PutIn(index, p);
          loaded := loaded + 1;
        }
        rest := scanned.value.rest;
        scanned := Scan(rest);
      }
      count := loaded;
    }

    lemma StepOfLoad(rows: Rows, t: CString)
      requires |rows| == ALPHABET_COUNT && Scan(t).Some?
      ensures AddedAll(rows, EntriesOf(t)) == AddedAll(Added(rows, Stored(Scan(t).value.entry)), EntriesOf(Scan(t).value.rest))
    {
      hide Scan, Added, Stored;
      var e, rest := Stored(Scan(t).value.entry), EntriesOf(Scan(t).value.rest);
      assert EntriesOf(t) == [e] + rest && ([e] + rest)[1..] == rest;
    }

    /** The call of person_delete on the head of a group. */
    method TakeOut(g: nat, p: Person, ghost i: nat)
      requires Valid() && g < ALPHABET_COUNT && i < |lists[g]| && lists[g][i] == p
      modifies groups, PersonsOf(lists), this`lists
      ensures Valid() && PersonsOf(lists) <= old(PersonsOf(lists))
      ensures Rows() == old(Rows())[g := old(Rows())[g][..i] + old(Rows())[g][i + 1..]]
      ensures Total(Rows()) == Total(old(Rows())) - 1
    {
      hide Group, Without, NameIndex, Distinct, Total, Linked, Sorted, Entries, PersonsOf, RowsOf;
      ghost var c := lists[g];
      TakenFacts(g, i);
      Others(g);
      var head := PersonDelete(groups[g], p, g, c, i);
      forall k | 0 <= k < ALPHABET_COUNT && k != g ensures Group(k, lists[k], groups[k]) {
        assert old(Group(k, lists[k], groups[k]));
        assert forall j :: 0 <= j < |lists[k]| ==> lists[k][j] !in c;
      }
      groups[g] := head;
      ghost var d := Without(c, i);
      lists := lists[g := d];
      InPersons(lists);
    }

    lemma TakenFacts(g: nat, i: nat)
      requires Valid() && g < ALPHABET_COUNT && i < |lists[g]|
      ensures var lists' := lists[g := Without(lists[g], i)];
        && PersonsOf(lists') == PersonsOf(lists) - {lists[g][i]}
        && RowsOf(lists') == RowsOf(lists)[g := RowsOf(lists)[g][..i] + RowsOf(lists)[g][i + 1..]]
        && Total(RowsOf(lists')) == Total(RowsOf(lists)) - 1
    {
      Others(g);
      TakenAmong(lists, g, i);
      RowsPut(lists, g, Without(lists[g], i));
      EntriesWithout(lists[g], i);
    }

    method SearchGroup(g: nat, name: CString) returns (item: Person?, ghost i: nat)
      requires Valid() && g < ALPHABET_COUNT
      ensures item == null <==> forall n :: n in lists[g] ==> n.name != name
      ensures item != null ==> item in PersonsOf(lists) && i < |lists[g]| && lists[g][i] == item && item.name == name
                               && forall k :: 0 <= k < i ==> lists[g][k].name != name
    {
      item, i := PersonSearchInGroup(groups[g], name, g, lists[g]);
    }

    lemma Others(g: nat)
      requires Valid() && g < ALPHABET_COUNT
      ensures Distinct(lists[g]) && forall n :: n in lists[g] ==> n in PersonsOf(lists)
      ensures forall k, n :: 0 <= k < |lists| && k != g && n in lists[k] ==> n !in lists[g]
    {
    }
  }

  lemma EmptyGroup()
    ensures forall g :: Group(g, [], null)
  {
  }

  lemma {:induction false} LinesAppend(s: seq<Entry>, e: Entry)
    ensures Lines(s + [e]) == Lines(s) + Line(e)
  {
    if s == [] {
      assert s + [e] == [e] && [e][1..] == [];
    } else {
      assert (s + [e])[0] == s[0] && (s + [e])[1..] == s[1..] + [e];
      LinesAppend(s[1..], e);
      hide Line;
    }
  }

  lemma NoRows(rows: Rows)
    ensures Flat(rows[..0]) == [] && Lines(Flat(rows[..0])) == []
  {
  }

  lemma FlatStep(rows: Rows, i: nat)
    requires i < |rows|
    ensures Flat(rows[..i + 1]) == Flat(rows[..i]) + rows[i] && |Flat(rows[..i + 1])| == |Flat(rows[..i])| + |rows[i]|
  {
    FlatAppend(rows[..i], rows[i]);
    assert rows[..i] + [rows[i]] == rows[..i + 1];
  }

  lemma AllRows(rows: Rows)
    ensures rows[..|rows|] == rows && Total(rows) == |Flat(rows)|
  {
    TotalFlat(rows);
  }

  lemma SaveStep(before: seq<Entry>, e: seq<Entry>, j: nat)
    requires j < |e|
    ensures Lines(before + e[..j + 1]) == Lines(before + e[..j]) + Line(e[j])
  {
    LinesAppend(before + e[..j], e[j]);
    assert before + e[..j] + [e[j]] == before + e[..j + 1];
  }

  /** The walk of save_file along one group. */
  method SaveList(head: Person?, text: CString, ghost c: seq<Person>, ghost before: seq<Entry>)
    returns (out: CString, saved: nat)
    requires Linked(c, head, Snap(c)) && text == Lines(before)
    ensures out == Lines(before + Entries(c)) && saved == |c|
  {
    hide Line, Lines, Linked;
    ghost var e := Entries(c);
    assert before + e[..0] == before;
    HeadIs(c, head);
    out, saved := text, 0;
    var item := head;
    while item != null
      invariant saved <= |c| && item == At(c, saved) && out == Lines(before + e[..saved])
      decreases |c| - saved
    {
      FieldsAt(c, head, saved);
      SaveStep(before, e, saved);
      assert e[saved] == Entry(item.name, item.phone);
      out := out + Line(Entry(item.name, item.phone));
      item := item.next;
      saved := saved + 1;
    }
    assert e[..saved] == e;
  }

  lemma {:induction false} FlatAppend(rows: Rows, r: seq<Entry>)
    ensures Flat(rows + [r]) == Flat(rows) + r
  {
    if rows == [] {
      assert rows + [r] == [r] && [r][1..] == [];
    } else {
      assert (rows + [r])[0] == rows[0] && (rows + [r])[1..] == rows[1..] + [r];
      FlatAppend(rows[1..], r);
    }
  }

  lemma NoneTotal()
    ensures Total(Empty()) == 0 && RowsOf(NoLists()) == Empty() && PersonsOf(NoLists()) == {}
    ensures |NoLists()| == ALPHABET_COUNT && forall g :: 0 <= g < ALPHABET_COUNT ==> NoLists()[g] == []
  {
    NoneTotalFrom(ALPHABET_COUNT);
    hide Total;
    assert RowsOf(NoLists()) == Empty();
  }

  lemma InPersons(lists: seq<seq<Person>>)
    ensures forall k, n :: 0 <= k < |lists| && n in lists[k] ==> n in PersonsOf(lists)
  {
  }

  lemma TakenAmong(lists: seq<seq<Person>>, g: nat, p: nat)
    requires g < |lists| && p < |lists[g]| && Distinct(lists[g])
    requires forall k, n :: 0 <= k < |lists| && k != g && n in lists[k] ==> n !in lists[g]
    ensures var lists' := lists[g := Without(lists[g], p)];
      PersonsOf(lists') == PersonsOf(lists) - {lists[g][p]}
  {
    var x, lists' := lists[g][p], lists[g := Without(lists[g], p)];
    WithoutMembers(lists[g], p);
    forall n | n in PersonsOf(lists) && n != x ensures n in PersonsOf(lists') {
      var k :| 0 <= k < |lists| && n in lists[k];
      assert n in lists'[k];
    }
    forall n | n in PersonsOf(lists') ensures n in PersonsOf(lists) && n != x {
      var k :| 0 <= k < |lists'| && n in lists'[k];
      assert n in lists[k];
      if k != g { assert n !in lists[g] && x in lists[g]; }
    }
  }

  /** The entry of that name is in the book. */
  ghost predicate Has(rows: Rows, name: CString) {
    exists g, i :: 0 <= g < |rows| && 0 <= i < |rows[g]| && rows[g][i].name == name
  }

  lemma FirstIs(lists: seq<seq<Person>>, name: CString, i: nat)
    requires 0 <= NameIndex(name) < |lists| && i < |lists[NameIndex(name)]|
    requires lists[NameIndex(name)][i].name == name
    requires forall k :: 0 <= k < i ==> lists[NameIndex(name)][k].name != name
    ensures var g, rows := NameIndex(name), RowsOf(lists);
      FirstTaken(rows, rows[g := rows[g][..i] + rows[g][i + 1..]], name)
  {
    var g: nat, rows: Rows := NameIndex(name), RowsOf(lists);
    assert rows[g][i].name == name;
  }

  /** The rows without the first entry of a name. */
  ghost predicate FirstTaken(rows: Rows, rows': Rows, name: CString) {
    var g := NameIndex(name);
    && 0 <= g < |rows|
    && exists i :: 0 <= i < |rows[g]| && rows[g][i].name == name && (forall k :: 0 <= k < i ==> rows[g][k].name != name)
         && rows' == rows[g := rows[g][..i] + rows[g][i + 1..]]
  }

  lemma {:induction false} NoneTotalFrom(n: nat)
    ensures Total(seq(n, _ => [])) == 0
  {
    var s: Rows := seq(n, _ => []);
    if n > 0 {
      assert s[1..] == seq(n - 1, _ => []);
      NoneTotalFrom(n - 1);
    }
  }

  lemma WithMembersOnly(c: seq<Person>, p: nat, x: Person)
    requires p <= |c|
    ensures |With(c, p, x)| == |c| + 1 && forall n :: n in With(c, p, x) <==> n in c || n == x
  {
  }

  /** A saved book of fitting entries, loaded into a new one, is the same book exactly under the condition of
      RoundTrip; without commas it is the book with the entries of each name turned around. */
  method SaveAndLoad(book: Book) returns (copy: Book)
    requires book.Valid() && AllFit(book.Rows())
    ensures copy.Valid() && copy.Counted()
    ensures copy.Rows() == book.Rows() <==>
            FreeRows(book.Rows()) && forall g :: 0 <= g < |book.Rows()| ==> Mirrored(book.Rows()[g])
    ensures FreeRows(book.Rows()) ==> copy.Rows() == AllFilled(book.Rows())
  {
    hide AllFit, FreeRows, Mirrored, Filled, Lines, Flat, EntriesOf, Total, AddedAll, Group;
    var text, saved := book.Save();
    book.Ordered();
    RoundTrip(book.Rows());
    if FreeRows(book.Rows()) { LoadTurns(book.Rows()); }
    copy := new Book();
    NoneTotal();
    copy.Load(text);
  }
}
