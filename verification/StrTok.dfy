/** strtok with a single delimiter: the tokens of a string, and how they relate to the pieces between delimiters. */
module StrTok {
  import opened CStrings

  /** strtok: past the delimiters, ... */
  function SkipDelim(h: CString, d: Byte, i: nat): (r: nat)
    requires i <= |h|
    ensures i <= r <= |h| && (r < |h| ==> h[r] != d) && forall k :: i <= k < r ==> h[k] == d
    decreases |h| - i
  {
    if i < |h| && h[i] == d then SkipDelim(h, d, i + 1) else i
  }

  /** ... and then up to the next one. */
  function TokenEnd(h: CString, d: Byte, i: nat): (r: nat)
    requires i <= |h|
    ensures i <= r <= |h| && (r < |h| ==> h[r] == d) && forall k :: i <= k < r ==> h[k] != d
    decreases |h| - i
  {
    if i < |h| && h[i] != d then TokenEnd(h, d, i + 1) else i
  }

  /** The tokens from `i` on: the non-empty pieces between delimiters. */
  function TokensFrom(h: CString, d: Byte, i: nat): seq<CString>
    requires i <= |h|
    decreases |h| - i
  {
    var a := SkipDelim(h, d, i);
    if a == |h| then [] else [h[a..TokenEnd(h, d, a)]] + TokensFrom(h, d, TokenEnd(h, d, a))
  }

  /** All pieces between delimiters, empty ones too. */
  function Pieces(h: CString, d: Byte): (p: seq<CString>)
    ensures |p| > 0
  {
    if h == [] then [[]]
    else if h[0] == d then [[]] + Pieces(h[1..], d)
    else var p := Pieces(h[1..], d); [[h[0]] + p[0]] + p[1..]
  }

  function NonEmpty(p: seq<CString>): seq<CString> {
    if p == [] then [] else (if p[0] == [] then [] else [p[0]]) + NonEmpty(p[1..])
  }

  function Chars(p: seq<CString>): nat {
    if p == [] then 0 else |p[0]| + Chars(p[1..])
  }

  function Empties(p: seq<CString>): nat {
    if p == [] then 0 else (if p[0] == [] then 1 else 0) + Empties(p[1..])
  }

  /** The pieces with a delimiter between any two. */
  function Glued(p: seq<CString>, d: Byte): CString
    requires p != []
  {
    if |p| == 1 then p[0] else p[0] + [d] + Glued(p[1..], d)
  }

  /** The pieces of a text have no delimiter inside, and glued together they are the text, ... */
  lemma {:induction false} PiecesGlued(h: CString, d: Byte)
    ensures Glued(Pieces(h, d), d) == h && forall k :: 0 <= k < |Pieces(h, d)| ==> d !in Pieces(h, d)[k]
  {
    if h != [] {
      PiecesGlued(h[1..], d);
      var p, rest := Pieces(h, d), Pieces(h[1..], d);
      if h[0] == d {
        assert p[1..] == rest;
      } else {
        assert p[1..] == rest[1..] && Glued(p, d) == [h[0]] + Glued(rest, d);
        assert forall k :: 1 <= k < |p| ==> p[k] == rest[k];
      }
      assert h == [h[0]] + h[1..];
    }
  }

  /** ... and only they are so. */
  lemma {:induction false} GluedPieces(p: seq<CString>, d: Byte)
    requires p != [] && forall k :: 0 <= k < |p| ==> d !in p[k]
    ensures Pieces(Glued(p, d), d) == p
    decreases |p|
  {
    NoPieces(d);
    if |p| == 1 {
      PieceBefore(p[0], [], d);
      assert p == [p[0]] && p[0] + [] == p[0];
    } else {
      var tail := Glued(p[1..], d);
      GluedPieces(p[1..], d);
      CutPieces(tail, d);
      hide Pieces;
      PieceBefore(p[0], [d] + tail, d);
      assert p[0] + ([d] + tail) == Glued(p, d);
      assert ([[]] + p[1..])[1..] == p[1..] && p == [p[0]] + p[1..] && p[0] + [] == p[0];
    }
  }

  lemma NoPieces(d: Byte)
    ensures Pieces([], d) == [[]]
  {
  }

  lemma CutPieces(h: CString, d: Byte)
    ensures Pieces([d] + h, d) == [[]] + Pieces(h, d)
  {
    assert ([d] + h)[1..] == h;
  }

  /** What has no delimiter goes in front of the first piece. */
  lemma {:induction false} PieceBefore(x: CString, h: CString, d: Byte)
    requires d !in x
    ensures Pieces(x + h, d) == [x + Pieces(h, d)[0]] + Pieces(h, d)[1..]
  {
    if x == [] {
      assert x + h == h && [] + Pieces(h, d)[0] == Pieces(h, d)[0];
    } else {
      PieceBefore(x[1..], h, d);
      assert x == [x[0]] + x[1..] && (x + h)[1..] == x[1..] + h && d !in x[1..];
      assert [x[0]] + (x[1..] + Pieces(h, d)[0]) == x + Pieces(h, d)[0];
    }
  }

  /** Of a row of pieces all but the empty ones stay, in order. */
  lemma {:induction false} NonEmptyParts(a: seq<CString>, x: CString, b: seq<CString>)
    ensures NonEmpty(a + [x] + b) == NonEmpty(a) + (if x == [] then [] else [x]) + NonEmpty(b)
    ensures Empties(a + [x] + b) == Empties(a) + (if x == [] then 1 else 0) + Empties(b)
  {
    hide *;
    NoneNonEmpty();
    if a == [] {
      NonEmptyCons(x, b);
      EmptiesCons(x, b);
      assert a + [x] + b == [x] + b;
    } else {
      var rest := a[1..] + [x] + b;
      NonEmptyParts(a[1..], x, b);
      NonEmptyCons(a[0], a[1..]);
      NonEmptyCons(a[0], rest);
      EmptiesCons(a[0], a[1..]);
      EmptiesCons(a[0], rest);
      assert [a[0]] + a[1..] == a;
      assert [a[0]] + rest == a + [x] + b;
    }
  }

  lemma {:induction false} PiecesLength(h: CString, d: Byte)
    ensures |h| + 1 == Chars(Pieces(h, d)) + |Pieces(h, d)|
  {
    if h == [] {
      assert Pieces(h, d)[1..] == [];
    } else {
      PiecesLength(h[1..], d);
      var p := Pieces(h[1..], d);
      if h[0] == d {
        assert ([[]] + p)[1..] == p;
      } else {
        assert ([[h[0]] + p[0]] + p[1..])[1..] == p[1..];
      }
    }
  }

  lemma PiecesStep(h: CString, d: Byte, i: nat)
    requires i <= |h|
    ensures i == |h| ==> Pieces(h[i..], d) == [[]]
    ensures i < |h| && h[i] == d ==> Pieces(h[i..], d) == [[]] + Pieces(h[i + 1..], d)
    ensures i < |h| && h[i] != d ==>
      var p := Pieces(h[i + 1..], d); Pieces(h[i..], d) == [[h[i]] + p[0]] + p[1..]
  {
    if i < |h| { assert h[i..][1..] == h[i + 1..] && h[i..][0] == h[i]; }
  }

  lemma TokenEndStep(h: CString, d: Byte, i: nat)
    requires i <= |h|
    ensures TokenEnd(h, d, i) == if i < |h| && h[i] != d then TokenEnd(h, d, i + 1) else i
  {
  }

  /** The first piece is what TokenEnd delimits. */
  lemma {:induction false} FirstPiece(h: CString, d: Byte, i: nat)
    requires i <= |h|
    ensures var e := TokenEnd(h, d, i);
      Pieces(h[i..], d) == [h[i..e]] + if e == |h| then [] else Pieces(h[e + 1..], d)
    decreases |h| - i
  {
    hide Pieces, TokenEnd;
    PiecesStep(h, d, i);
    TokenEndStep(h, d, i);
    var e := TokenEnd(h, d, i);
    if i < |h| && h[i] != d {
      FirstPiece(h, d, i + 1);
      assert [h[i]] + h[i + 1..e] == h[i..e];
    } else {
      assert h[i..i] == [];
    }
  }

  lemma NonEmptyCons(x: CString, p: seq<CString>)
    ensures NonEmpty([x] + p) == (if x == [] then [] else [x]) + NonEmpty(p)
  {
    assert ([x] + p)[1..] == p;
  }

  lemma EmptiesCons(x: CString, p: seq<CString>)
    ensures Empties([]) == 0 && Empties([x] + p) == (if x == [] then 1 else 0) + Empties(p)
  {
    assert ([x] + p)[1..] == p;
  }

  lemma NoneNonEmpty()
    ensures NonEmpty([]) == []
  {
  }

  lemma TokenStep(h: CString, d: Byte, i: nat)
    requires i <= |h|
    ensures i == |h| ==> TokensFrom(h, d, i) == []
    ensures i < |h| && h[i] == d ==> TokensFrom(h, d, i) == TokensFrom(h, d, i + 1)
    ensures i < |h| && h[i] != d ==>
      i < TokenEnd(h, d, i) && TokensFrom(h, d, i) == [h[i..TokenEnd(h, d, i)]] + TokensFrom(h, d, TokenEnd(h, d, i))
  {
  }

  /** strtok gives the non-empty pieces. */
  lemma {:induction false} TokensArePieces(h: CString, d: Byte, i: nat)
    requires i <= |h|
    ensures TokensFrom(h, d, i) == NonEmpty(Pieces(h[i..], d))
    decreases |h| - i
  {
    hide TokensFrom, Pieces, NonEmpty, SkipDelim, TokenEnd;
    FirstPiece(h, d, i);
    TokenStep(h, d, i);
    var e := TokenEnd(h, d, i);
    var p := if e == |h| then [] else Pieces(h[e + 1..], d);
    NonEmptyCons(h[i..e], p);
    NoneNonEmpty();
    if i < |h| && h[i] == d {
      TokensArePieces(h, d, i + 1);
      assert e == i;
    } else if i < |h| {
      TokensArePieces(h, d, e);
      FirstPiece(h, d, e);
      assert TokenEnd(h, d, e) == e;
      NonEmptyCons(h[e..e], p);
    }
  }

  lemma {:induction false} TokensNotEmpty(h: CString, d: Byte, i: nat)
    requires i <= |h|
    ensures forall k :: 0 <= k < |TokensFrom(h, d, i)| ==> TokensFrom(h, d, i)[k] != []
    decreases |h| - i
  {
    if SkipDelim(h, d, i) < |h| { TokensNotEmpty(h, d, TokenEnd(h, d, SkipDelim(h, d, i))); }
  }
}
