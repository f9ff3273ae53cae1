/** C strings: bytes other than NUL, and the order strcmp gives them. */
module CStrings {
  type Byte = x: int | 1 <= x < 256 witness 1
  type CString = seq<Byte>

  function CharByte(c: char): Byte { if 1 <= c as int < 256 then c as int else 255 }

  /** A text as its bytes. */
  function Spell(s: string): (r: CString)
    ensures |r| == |s| && forall i :: 0 <= i < |s| ==> r[i] == CharByte(s[i])
  {
    seq(|s|, i requires 0 <= i < |s| => CharByte(s[i]))
  }

  /** strcmp: the sign of the first difference, the end of a string counting as 0. */
  function StrCmp(a: CString, b: CString): int {
    if a == [] && b == [] then 0
    else if a == [] then 0 - b[0]
    else if b == [] then a[0]
    else if a[0] != b[0] then a[0] - b[0]
    else StrCmp(a[1..], b[1..])
  }

  lemma {:induction false} StrCmpZero(a: CString, b: CString)
    ensures StrCmp(a, b) == 0 <==> a == b
  {
    if a != [] && b != [] && a[0] == b[0] {
      StrCmpZero(a[1..], b[1..]);
      assert a == [a[0]] + a[1..] && b == [b[0]] + b[1..];
    }
  }

  lemma {:induction false} StrCmpFlip(a: CString, b: CString)
    ensures StrCmp(a, b) < 0 <==> StrCmp(b, a) > 0
  {
    if a != [] && b != [] && a[0] == b[0] { StrCmpFlip(a[1..], b[1..]); }
  }

  /** The first `n` bytes agree; then `a` ends and `b` goes on, or `a` goes on with the smaller byte. */
  predicate EarlierAt(a: CString, b: CString, n: nat) {
    n <= |a| && n < |b| && a[..n] == b[..n] && (n < |a| ==> a[n] < b[n])
  }

  /** The order of the dictionary, by bytes. */
  ghost predicate Earlier(a: CString, b: CString) {
    exists n: nat :: EarlierAt(a, b, n)
  }

  /** strcmp is negative exactly if its first argument comes earlier. */
  lemma {:induction false} StrCmpLex(a: CString, b: CString)
    ensures StrCmp(a, b) < 0 <==> Earlier(a, b)
  {
    if a == [] {
      assert b != [] ==> EarlierAt(a, b, 0);
    } else if b != [] && a[0] == b[0] {
      StrCmpLex(a[1..], b[1..]);
      if n: nat :| EarlierAt(a[1..], b[1..], n) {
        assert a[..n + 1] == [a[0]] + a[1..][..n] && b[..n + 1] == [b[0]] + b[1..][..n];
        assert EarlierAt(a, b, n + 1);
      }
      if n: nat :| EarlierAt(a, b, n) {
        assert n > 0 && a[1..][..n - 1] == a[..n][1..] && b[1..][..n - 1] == b[..n][1..];
        assert EarlierAt(a[1..], b[1..], n - 1);
      }
    } else if b != [] {
      assert a[0] < b[0] ==> EarlierAt(a, b, 0);
      if n: nat :| EarlierAt(a, b, n) {
        assert n > 0 ==> a[..n][0] == b[..n][0];
      }
    }
  }

  /** After a common start the first byte decides, and a string comes before all that go on from it. */
  lemma StrCmpBytes(p: CString, x: Byte, s: CString, y: Byte, t: CString)
    requires x != y
    ensures StrCmp(p + [x] + s, p + [y] + t) < 0 <==> x < y
    ensures StrCmp(p, p + [x] + s) < 0
  {
    StrCmpAfter(p, [x] + s, [y] + t);
    StrCmpAfter(p, [], [x] + s);
    assert p + ([x] + s) == p + [x] + s && p + ([y] + t) == p + [y] + t && p + [] == p;
  }

  lemma {:induction false} StrCmpAfter(p: CString, a: CString, b: CString)
    ensures StrCmp(p + a, p + b) == StrCmp(a, b)
  {
    if p == [] {
      assert p + a == a && p + b == b;
    } else {
      assert (p + a)[1..] == p[1..] + a && (p + b)[1..] == p[1..] + b;
      StrCmpAfter(p[1..], a, b);
    }
  }

  lemma {:induction false} StrCmpTrans(a: CString, b: CString, c: CString)
    requires StrCmp(a, b) < 0 && StrCmp(b, c) < 0
    ensures StrCmp(a, c) < 0
  {
    if a != [] && b != [] && c != [] && a[0] == b[0] == c[0] { StrCmpTrans(a[1..], b[1..], c[1..]); }
  }
}
