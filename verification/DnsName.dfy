/** The query encoder of dns.c, and what a reader that follows sections 3.1 and 4.1.2 of RFC 1035 makes of it. */
module DnsName {
  import opened CStrings
  import opened Options
  import opened StrTok

  type Octet = x: int | 0 <= x < 256

  const DOT: Byte := 46

  // ---------- the wire form ----------

  function Octets(s: CString): (o: seq<Octet>)
    ensures |o| == |s| && forall i :: 0 <= i < |s| ==> o[i] == s[i]
  {
    seq(|s|, i requires 0 <= i < |s| => s[i] as Octet)
  }

  /** One label as the loop writes it; the length goes into one byte. */
  function Coded(l: CString): seq<Octet> { [|l| % 256] + Octets(l) }

  function AllCoded(labels: seq<CString>): seq<Octet> {
    if labels == [] then [] else Coded(labels[0]) + AllCoded(labels[1..])
  }

  datatype Name = Name(labels: seq<CString>, rest: seq<Octet>)

  predicate NoZero(o: seq<Octet>) { forall i :: 0 <= i < |o| ==> o[i] != 0 }

  function Text(o: seq<Octet>): CString
    requires NoZero(o)
  {
    seq(|o|, i requires 0 <= i < |o| => o[i] as Byte)
  }

  /** A domain name in a message without compression: labels of at most 63 octets up to the empty one. */
  function Decode(o: seq<Octet>): Option<Name>
    decreases |o|
  {
    if o == [] then None
    else if o[0] == 0 then Some(Name([], o[1..]))
    else if o[0] >= 64 || |o| < 1 + o[0] || !NoZero(o[1..1 + o[0]]) then None
    else
      match Decode(o[1 + o[0]..])
      case None => None
      case Some(n) => Some(Name([Text(o[1..1 + o[0]])] + n.labels, n.rest))
  }

  ghost predicate Short(labels: seq<CString>) {
    forall i :: 0 <= i < |labels| ==> 0 < |labels[i]| < 64
  }

  lemma {:induction false} DecodeCoded(labels: seq<CString>, t: seq<Octet>)
    requires Short(labels)
    ensures Decode(AllCoded(labels) + [0] + t) == Some(Name(labels, t))
    decreases |labels|
  {
    hide Decode, Coded;
    if labels == [] {
      DecodeEnd(t);
      assert AllCoded(labels) + [0] + t == [0] + t;
    } else {
      var l, rest := labels[0], AllCoded(labels[1..]) + [0] + t;
      assert AllCoded(labels) + [0] + t == Coded(l) + rest;
      DecodeCoded(labels[1..], t);
      DecodeFirst(l, rest);
      assert labels == [l] + labels[1..];
    }
  }

  lemma DecodeEnd(t: seq<Octet>)
    ensures Decode([0] + t) == Some(Name([], t))
  {
    assert ([0] + t)[1..] == t;
  }

  lemma DecodeFirst(l: CString, rest: seq<Octet>)
    requires 0 < |l| < 64
    ensures Decode(rest).Some? ==>
      Decode(Coded(l) + rest) == Some(Name([l] + Decode(rest).value.labels, Decode(rest).value.rest))
  {
    var o := Coded(l) + rest;
    assert o[0] == |l| && o[1..1 + |l|] == Octets(l) && o[1 + |l|..] == rest;
    assert Text(Octets(l)) == l;
  }

  /** Whatever is read as a name has labels of 1 to 63 bytes. */
  lemma {:induction false} DecodedShort(o: seq<Octet>)
    requires Decode(o).Some?
    ensures Short(Decode(o).value.labels)
    decreases |o|
  {
    if o[0] != 0 { DecodedShort(o[1 + o[0]..]); }
  }

  /** The labels come back exactly if none is longer than 63 bytes. */
  lemma DecodeIff(labels: seq<CString>, t: seq<Octet>)
    requires forall i :: 0 <= i < |labels| ==> labels[i] != []
    ensures Decode(AllCoded(labels) + [0] + t) == Some(Name(labels, t)) <==> Short(labels)
  {
    var o := AllCoded(labels) + [0] + t;
    hide Decode, AllCoded;
    if Short(labels) { DecodeCoded(labels, t); }
    if Decode(o).Some? { DecodedShort(o); }
  }

  lemma {:induction false} CodedLength(p: seq<CString>)
    ensures |AllCoded(NonEmpty(p))| == Chars(p) + |p| - Empties(p)
  {
    if p != [] {
      CodedLength(p[1..]);
      if p[0] != [] {
        assert ([p[0]] + NonEmpty(p[1..]))[1..] == NonEmpty(p[1..]);
      } else {
        assert [] + NonEmpty(p[1..]) == NonEmpty(p[1..]);
      }
    }
  }

  /** The name takes two bytes more than the host name has, less one for each empty piece. */
  lemma NameLength(h: CString)
    ensures TokensFrom(h, DOT, 0) == NonEmpty(Pieces(h, DOT))
    ensures |AllCoded(TokensFrom(h, DOT, 0))| + 1 == |h| + 2 - Empties(Pieces(h, DOT))
  {
    assert h[0..] == h;
    TokensArePieces(h, DOT, 0);
    PiecesLength(h, DOT);
    CodedLength(Pieces(h, DOT));
  }

  // ---------- the encoder ----------

  /** strncpy of a token and its end, and what it leaves before and behind. */
  method CopyToken(name: array<Octet>, q: nat, host: CString, a: nat, len: nat)
    requires a + len <= |host| && q + len < name.Length
    modifies name
    ensures name[..q] == old(name[..q]) && name[q..q + len] == Octets(host[a..a + len]) && name[q + len] == 0
  {
    for j := 0 to len
      invariant name[..q] == old(name[..q]) && forall k :: q <= k < q + j ==> name[k] == host[a + (k - q)]
    {
      name[q + j] := host[a + j];
    }
    name[q + len] := 0;
    assert name[..q] == old(name[..q]);
  }

  /** One round of the loop: the length byte and the token. */
  method WriteToken(name: array<Octet>, q: nat, host: CString, a: nat, e: nat) returns (q': nat)
    requires a < e <= |host| && q + (e - a) + 1 < name.Length
    modifies name
    ensures q' == q + 1 + (e - a) && name[..q'] == old(name[..q]) + Coded(host[a..e]) && name[q'] == 0
  {
    ghost var before := name[..q];
    var len := e - a;
    name[q] := len % 256;
    assert name[..q + 1] == before + [len % 256];
    CopyToken(name, q + 1, host, a, len);
    q' := q + 1 + len;
    UpTo(name, q + 1, q');
    assert before + [len % 256] + Octets(host[a..e]) == before + Coded(host[a..e]);
  }

  lemma UpTo(name: array<Octet>, i: nat, j: nat)
    requires i <= j <= name.Length
    ensures name[..j] == name[..i] + name[i..j]
  {
  }

  lemma CodedSplit(done: seq<Octet>, h: CString, i: nat)
    requires i <= |h| && SkipDelim(h, DOT, i) < |h|
    ensures var a := SkipDelim(h, DOT, i);
      var e := TokenEnd(h, DOT, a);
      done + AllCoded(TokensFrom(h, DOT, i)) == (done + Coded(h[a..e])) + AllCoded(TokensFrom(h, DOT, e))
  {
    var a := SkipDelim(h, DOT, i);
    var e := TokenEnd(h, DOT, a);
    assert TokensFrom(h, DOT, i)[0] == h[a..e] && TokensFrom(h, DOT, i)[1..] == TokensFrom(h, DOT, e);
    assert AllCoded(TokensFrom(h, DOT, i)) == Coded(h[a..e]) + AllCoded(TokensFrom(h, DOT, e));
  }

  lemma RoomLeft(h: CString, i: nat)
    requires i <= |h| && SkipDelim(h, DOT, i) < |h|
    ensures var a := SkipDelim(h, DOT, i);
      var e := TokenEnd(h, DOT, a);
      a < e && TokensFrom(h, DOT, i) != [] && |AllCoded(TokensFrom(h, DOT, i))| >= 1 + (e - a)
  {
    CodedSplit([], h, i);
  }

  lemma NoneLeft(h: CString, i: nat)
    requires i <= |h| && SkipDelim(h, DOT, i) == |h|
    ensures TokensFrom(h, DOT, i) == [] && AllCoded(TokensFrom(h, DOT, i)) == []
  {
  }

  /** dns_create_question: the name buffer, and how many of its bytes are written. */
  method CreateQuestion(host: CString) returns (name: array<Octet>, written: nat)
    ensures fresh(name) && name.Length == |host| + 2 && written <= name.Length
    ensures TokensFrom(host, DOT, 0) == [] ==> written == 0
    ensures TokensFrom(host, DOT, 0) != [] ==> name[..written] == AllCoded(TokensFrom(host, DOT, 0)) + [0]
    ensures TokensFrom(host, DOT, 0) != [] ==> written == name.Length - Empties(Pieces(host, DOT))
  {
    NameLength(host);
    name := new Octet[|host| + 2];
    ghost var all := AllCoded(TokensFrom(host, DOT, 0));
    var qname: nat, pos: nat := 0, 0;
    var token := SkipDelim(host, DOT, pos);
    hide TokensFrom, AllCoded, Pieces, Empties, Coded;
    assert name[..0] + all == all;
    while token < |host|
      invariant pos <= |host| && token == SkipDelim(host, DOT, pos) && qname < name.Length
      invariant all == name[..qname] + AllCoded(TokensFrom(host, DOT, pos))
      invariant qname == 0 <==> pos == 0
      invariant pos > 0 ==> name[qname] == 0 && TokensFrom(host, DOT, 0) != []
      decreases |host| - pos
    {
      var end := TokenEnd(host, DOT, token);
      CodedSplit(name[..qname], host, pos);
      RoomLeft(host, pos);
      qname := WriteToken(name, qname, host, token, end);
      pos := end;
      token := SkipDelim(host, DOT, pos);
    }
    NoneLeft(host, pos);
    written := if pos == 0 then 0 else qname + 1;
    if pos > 0 {
      assert all == name[..qname];
      assert name[..qname + 1] == name[..qname] + [name[qname]];
    }
  }

  /** With a label, and none longer than 63 bytes, a reader finds exactly the labels; and only then. */
  method EncodesLabels(host: CString) returns (name: array<Octet>, written: nat)
    requires TokensFrom(host, DOT, 0) != []
    ensures written + Empties(Pieces(host, DOT)) == name.Length
    ensures Decode(name[..]) == Some(Name(NonEmpty(Pieces(host, DOT)), name[written..])) <==> Short(NonEmpty(Pieces(host, DOT)))
  {
    name, written := CreateQuestion(host);
    NameLength(host);
    TokensNotEmpty(host, DOT, 0);
    assert name[..] == name[..written] + name[written..];
    DecodeIff(TokensFrom(host, DOT, 0), name[written..]);
  }

  // ---------- the request ----------

  /** dns_create_header in network order, with the random id in its two bytes. */
  function Header(id0: Octet, id1: Octet): seq<Octet> { [id0, id1, 1, 0, 0, 1, 0, 0, 0, 0, 0, 0] }

  method CopyInto(request: array<Octet>, offset: nat, bytes: seq<Octet>)
    requires offset + |bytes| <= request.Length
    modifies request
    ensures request[..offset] == old(request[..offset]) && request[offset..offset + |bytes|] == bytes
    ensures forall k :: offset + |bytes| <= k < request.Length ==> request[k] == old(request[k])
  {
    for k := 0 to |bytes|
      invariant request[..offset] == old(request[..offset])
      invariant forall j :: offset + k <= j < request.Length ==> request[j] == old(request[j])
      invariant forall j :: 0 <= j < k ==> request[offset + j] == bytes[j]
    {
      request[offset + k] := bytes[k];
    }
  }

  /** The memset at the start of dns_build_requestion. */
  method Clear(request: array<Octet>)
    modifies request
    ensures forall k :: 0 <= k < request.Length ==> request[k] == 0
  {
    for k := 0 to request.Length
      invariant forall j :: 0 <= j < k ==> request[j] == 0
    {
      request[k] := 0;
    }
  }

  /** dns_build_requestion, with the length of the buffer for `rlen`. */
  method BuildRequest(id0: Octet, id1: Octet, name: array<Octet>, request: array<Octet>) returns (length: nat)
    requires request != name && 12 + name.Length + 4 <= request.Length
    modifies request
    ensures length == 12 + name.Length + 4
    ensures request[..length] == Header(id0, id1) + name[..] + [0, 1] + [0, 1]
    ensures forall k :: length <= k < request.Length ==> request[k] == 0
  {
    Clear(request);
    CopyInto(request, 0, Header(id0, id1));
    var offset := 12;
    assert request[..offset] == Header(id0, id1);
    CopyInto(request, offset, name[..]);
    assert request[..offset + name.Length] == request[..offset] + request[offset..offset + name.Length];
    offset := offset + name.Length;
    CopyInto(request, offset, [0, 1]);
    assert request[..offset + 2] == request[..offset] + request[offset..offset + 2];
    offset := offset + 2;
    CopyInto(request, offset, [0, 1]);
    assert request[..offset + 2] == request[..offset] + request[offset..offset + 2];
    length := offset + 2;
  }

  /** The header section of a message, by section 4.1.1 of RFC 1035. */
  datatype Head = Head(id: int, response: bool, opcode: int, authoritative: bool, truncated: bool, recursionDesired: bool,
                       recursionAvailable: bool, reserved: int, rcode: int,
                       questions: int, answers: int, authorities: int, additionals: int)

  function ReadHead(message: seq<Octet>): Option<Head> {
    if |message| < 12 then None
    else
      var f, g := message[2] as int, message[3] as int;
      Some(Head(Pair(message, 0), f / 128 == 1, f / 8 % 16, f / 4 % 2 == 1, f / 2 % 2 == 1, f % 2 == 1,
                g / 128 == 1, g / 16 % 8, g % 16,
                Pair(message, 4), Pair(message, 6), Pair(message, 8), Pair(message, 10)))
  }

  /** A standard query with one question that asks for recursion, and nothing else. */
  function Plain(id: int): Head { Head(id, false, 0, false, false, true, false, 0, 0, 1, 0, 0, 0) }

  lemma HeadBack(id0: Octet, id1: Octet, message: seq<Octet>)
    requires Header(id0, id1) <= message
    ensures ReadHead(message) == Some(Plain(id0 * 256 + id1))
  {
    var h := Header(id0, id1);
    assert forall i :: 0 <= i < 12 ==> message[i] == h[i];
  }

  datatype Question = Question(labels: seq<CString>, qtype: int, qclass: int)

  /** The question behind the twelve octets of the header. */
  function ReadQuestion(message: seq<Octet>): Option<Question> {
    if |message| < 12 then None
    else
      match Decode(message[12..])
      case None => None
      case Some(n) =>
        if |n.rest| < 4 then None
        else Some(Question(n.labels, Pair(n.rest, 0), Pair(n.rest, 2)))
  }

  function Pair(o: seq<Octet>, i: nat): int
    requires i + 1 < |o|
  {
    o[i] as int * 256 + o[i + 1] as int
  }

  /** What a reader takes for the type and the class when `gap` is what the encoder left unwritten. */
  function Behind(gap: seq<Octet>): seq<Octet> { gap + [0, 1, 0, 1] }

  function Asked(labels: seq<CString>, gap: seq<Octet>): Question {
    Question(labels, Pair(Behind(gap), 0), Pair(Behind(gap), 2))
  }

  /** The address record of the Internet class is asked for exactly if nothing was left unwritten, or what was
      looks like that question itself. */
  lemma AsksForAddress(labels: seq<CString>, gap: seq<Octet>)
    ensures Asked(labels, gap) == Question(labels, 1, 1) <==>
            gap == [] || gap == [0, 1] || (|gap| >= 4 && gap[..4] == [0, 1, 0, 1])
  {
    var t := Behind(gap);
    if |gap| >= 4 {
      assert t[..4] == gap[..4];
      assert gap[..4] == [gap[0], gap[1], gap[2], gap[3]];
    } else if |gap| == 2 {
      assert gap == [gap[0], gap[1]];
    }
  }

  /** A query as the client makes it.  `gap` are the bytes of the name buffer that were never written, one for
      each empty label.  The reader gets the non-empty labels back exactly if none is longer than 63 bytes, and
      a type and class that start in the gap. */
  method Query(host: CString, id0: Octet, id1: Octet, request: array<Octet>) returns (length: nat, gap: seq<Octet>)
    requires TokensFrom(host, DOT, 0) != [] && |host| + 18 <= request.Length
    modifies request
    ensures length == |host| + 18 && |gap| == Empties(Pieces(host, DOT))
    ensures ReadQuestion(request[..length]) == Some(Asked(NonEmpty(Pieces(host, DOT)), gap)) <==>
            Short(NonEmpty(Pieces(host, DOT)))
    ensures |gap| == 0 ==> NonEmpty(Pieces(host, DOT)) == Pieces(host, DOT)
    ensures ReadHead(request[..length]) == Some(Plain(id0 * 256 + id1))
  {
    var name, written := CreateQuestion(host);
    length := BuildRequest(id0, id1, name, request);
    HeadBack(id0, id1, request[..length]);
    gap := name[written..];
    NameLength(host);
    TokensNotEmpty(host, DOT, 0);
    ghost var labels := TokensFrom(host, DOT, 0);
    hide TokensFrom, AllCoded, Pieces, Empties, NonEmpty, Decode, ReadQuestion, Short, Asked, ReadHead, Header;
    MessageSplit(Header(id0, id1), name[..], AllCoded(labels) + [0], gap);
    QuestionBack(Header(id0, id1), labels, gap);
    if |gap| == 0 { AllPieces(Pieces(host, DOT)); }
  }

  lemma MessageSplit(head: seq<Octet>, name: seq<Octet>, coded: seq<Octet>, gap: seq<Octet>)
    requires name == coded + gap
    ensures head + name + [0, 1] + [0, 1] == head + (coded + Behind(gap))
  {
  }

  lemma QuestionBack(head: seq<Octet>, labels: seq<CString>, gap: seq<Octet>)
    requires |head| == 12 && forall i :: 0 <= i < |labels| ==> labels[i] != []
    ensures ReadQuestion(head + (AllCoded(labels) + [0] + Behind(gap))) == Some(Asked(labels, gap)) <==> Short(labels)
  {
    var body := AllCoded(labels) + [0] + Behind(gap);
    assert (head + body)[12..] == body;
    hide Decode, AllCoded;
    if Short(labels) { DecodeCoded(labels, Behind(gap)); }
    if Decode(body).Some? { DecodedShort(body); }
  }

  lemma {:induction false} AllPieces(p: seq<CString>)
    requires Empties(p) == 0
    ensures NonEmpty(p) == p
  {
    if p != [] {
      AllPieces(p[1..]);
      assert p == [p[0]] + p[1..];
    }
  }
}
