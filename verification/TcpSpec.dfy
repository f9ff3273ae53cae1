/** What the streams of ustack/tcp.c do, told on values: a stream as it looks, a table as it looks at one moment,
    what each event does to it, and what follows over whole runs. */
module TcpSpec {
  import opened Options

  type Word32 = x: int | 0 <= x < 0x1_0000_0000
  type Byte = x: int | 0 <= x < 256
  type Nibble = x: int | 0 <= x < 16
  type Under = x: int | 0 <= x <= 20

  function Mod32(x: int): Word32 { x % 0x1_0000_0000 }

  datatype Status = Closed | Listen | SynRcvd | Established | CloseWait | LastAck

  /** How far along the passive-open path a stream is. */
  function Rank(s: Status): nat {
    match s
    case Listen => 0
    case SynRcvd => 1
    case Established => 2
    case CloseWait => 3
    case LastAck => 4
    case Closed => 5
  }

  /** A segment as ng_tcp_process reads it; `bytes` starts at the TCP header and has the length the IP header
      leaves for TCP, `dataOff` is the header length in words.  Where the IP header claims less than its own
      length, no bytes are left and `under` are missing. */
  datatype Segment = Segment(sip: Word32, dip: Word32, sport: int, dport: int, seqnum: Word32, acknum: Word32,
                             syn: bool, ack: bool, psh: bool, fin: bool, dataOff: Nibble, bytes: seq<Byte>, under: Under)
  {
    /** The C variable tcplen. */
    function TcpLen(): int { if bytes == [] then 0 - under as int else |bytes| }

    function PayloadLen(): int { TcpLen() - dataOff * 4 }

    /** By how much the header claims to be longer than the whole segment. */
    function Shortfall(): nat { if PayloadLen() < 0 then -PayloadLen() else 0 }

    function Payload(): Fragment { if PayloadLen() > 0 then bytes[dataOff * 4..] else [] }
  }

  /** What goes into the receive ring. */
  type Fragment = seq<Byte>

  /** What goes into the send ring. */
  datatype Reply = Reply(sport: int, dport: int, seqnum: Word32, acknum: Word32, syn: bool, fin: bool)

  ghost function Total(log: seq<Fragment>): nat {
    if log == [] then 0 else |log[0]| + Total(log[1..])
  }

  lemma {:induction false} TotalAdd(log: seq<Fragment>, f: Fragment)
    ensures Total(log + [f]) == Total(log) + |f|
  {
    if log == [] {
      assert log + [f] == [f];
    } else {
      assert (log + [f])[1..] == log[1..] + [f];
      TotalAdd(log[1..], f);
    }
  }

  lemma ModAdd(x: int, d: int)
    ensures Mod32(Mod32(x) + d) == Mod32(x + d)
  {
    ModShift(Mod32(x) + d, x / 0x1_0000_0000);
  }

  lemma ModShift(x: int, k: int)
    ensures Mod32(x + k * 0x1_0000_0000) == Mod32(x)
  {
  }

  /** Two numbers agree modulo 2^32 exactly if their difference is a multiple of it. */
  lemma ModSame(x: int, d: int)
    ensures Mod32(x - d) == Mod32(x) <==> Mod32(d) == 0
  {
    var q: int, r: int := d / 0x1_0000_0000, Mod32(d);
    ModShift(x - d, q);
    assert x - d + q * 0x1_0000_0000 == x - r;
    ModAdd(x, 0 - r);
    if r > 0 && Mod32(x) < r { ModShift(Mod32(x) - r, 1); }
  }

  lemma SmallShift(x: nat, d: nat)
    requires d < 0x1_0000_0000 && Mod32(x) == 0
    ensures Mod32(x + d) == 0 <==> d == 0
  {
    ModAdd(x, d);
  }

  /** What a payload of `plen` bytes, of which `f` are kept, does to a number `short` behind `due`. */
  lemma PushStep(due: int, short: nat, plen: int, f: nat, gap: nat)
    requires -80 <= plen && f == (if plen > 0 then plen else 0) && gap == if plen < 0 then -plen else 0
    ensures Mod32(Mod32(due - short) + plen) == Mod32(due + f - (short + gap))
    ensures Mod32(due - short) == Mod32(due) ==> (Mod32(due + f - (short + gap)) == Mod32(due + f) <==> plen >= 0)
  {
    ModAdd(due - short, plen);
    ModSame(due, short);
    ModSame(due + f, short + gap);
    if Mod32(short) == 0 { SmallShift(short, gap); }
  }

  // ---------- a stream ----------

  /** A stream as it looks.  `local` ones are made by nsocket; `peerSeq` is the peer's initial sequence number,
      `log` all that was ever put into the receive ring, `short` the shortfalls of the pushed segments taken. */
  datatype View = View(fd: int, sip: Word32, dip: Word32, sport: int, dport: int, sndNxt: Word32, rcvNxt: Word32,
                       status: Status, sndbuf: seq<Reply>, log: seq<Fragment>,
                       local: bool, peerSeq: Word32, finTaken: bool, short: nat)
  {
    /** The number after the last byte kept, and after the FIN. */
    ghost function Due(): int { peerSeq + 1 + Total(log) + if finTaken then 1 else 0 }

    /** The stream acknowledges exactly the bytes it has kept, and the FIN. */
    ghost predicate Exact() { rcvNxt == Mod32(Due()) }

    /** What it acknowledges: those bytes and the FIN, short of what overlong headers took away. */
    ghost predicate Accounted() { rcvNxt == Mod32(Due() - short) }

    /** What the peer has been told.  The first segment sent is the SYN with the number behind the peer's; the last
        one acknowledges the bytes kept and the FIN, less the shortfalls, under the stream's own next number;
        all go from the stream's port to the peer's, and the FIN is the last once the stream is closing. */
    ghost predicate Told() {
      && sndbuf != []
      && (forall i :: 0 <= i < |sndbuf| ==> sndbuf[i].sport == dport && sndbuf[i].dport == sport && (sndbuf[i].syn <==> i == 0))
      && sndbuf[0].acknum == Mod32(peerSeq + 1) && !sndbuf[0].fin
      && var last := sndbuf[|sndbuf| - 1];
         last.acknum == Mod32(Due() - short) && last.seqnum == sndNxt && (last.fin <==> status.LastAck? || status.Closed?)
    }

    /** The books of a stream with a peer are right, and so is what the peer has been told. */
    ghost predicate Booked() { Accounted() && Told() }

    /** A stream with a peer is on the passive-open path; a FIN leaves an empty fragment, and it is the last one. */
    predicate OnPath() {
      && (status.SynRcvd? ==> log == [] && !finTaken)
      && (status.Established? ==> !finTaken)
      && (status.CloseWait? ==> finTaken)
      && !status.Closed? && !status.Listen?
      && (finTaken ==> log != [] && log[|log| - 1] == [])
    }

    ghost predicate Sane() {
      if local then sip == 0 && sport == 0 && (status.Closed? || status.Listen? || status.LastAck?)
      else OnPath() && Booked()
    }

    function Acked(seg: Segment): View { this.(sndbuf := sndbuf + [Reply(seg.dport, seg.sport, sndNxt, rcvNxt, false, false)]) }

    /** After a pushed segment. */
    function Pushed(seg: Segment): View {
      this.(rcvNxt := Mod32(rcvNxt + seg.PayloadLen()), sndNxt := seg.acknum, log := log + [seg.Payload()],
            short := short + seg.Shortfall()).Acked(seg)
    }

    /** After a FIN. */
    function Finned(seg: Segment): View {
      this.(status := CloseWait, rcvNxt := Mod32(rcvNxt + 1), sndNxt := seg.acknum, log := log + [[]], finTaken := true).Acked(seg)
    }

    /** After any segment it gets, but for a listener, which makes another stream. */
    function After(seg: Segment): View {
      match status
      case SynRcvd => if seg.ack then this.(status := Established) else this
      case Established =>
        var v := if seg.psh then Pushed(seg) else this;
        if seg.fin then v.Finned(seg) else v
      case LastAck => if seg.ack then this.(status := Closed) else this
      case _ => this
    }

    /** After nclose, but for a listener. */
    function Closing(): View {
      this.(status := LastAck, sndbuf := sndbuf + [Reply(dport, sport, sndNxt, rcvNxt, false, true)])
    }
  }

  /** The stream a listener makes for a SYN, with `isn` for its own initial sequence number. */
  function Answered(seg: Segment, isn: Word32): View {
    View(-1, seg.sip, seg.dip, seg.sport, seg.dport, isn, Mod32(seg.seqnum + 1), SynRcvd,
         [Reply(seg.dport, seg.sport, isn, Mod32(seg.seqnum + 1), true, false)], [], false, seg.seqnum, false, 0)
  }

  /** The stream of nsocket, nbind and nlisten. */
  function Opened(fd: int, port: int, ip: Word32, listening: bool): View {
    View(fd, 0, ip, 0, port, 0, 0, if listening then Listen else Closed, [], [], true, 0, false, 0)
  }

  /** The peer is told the right number exactly if the shortfalls add up to a multiple of 2^32. */
  lemma RightNumber(v: View)
    requires v.Accounted()
    ensures v.Exact() <==> Mod32(v.short) == 0
  {
    ModSame(v.Due(), v.short);
  }

  /** A pushed payload is kept whole and accounted for; an exact number stays exact exactly if the header is not
      longer than the segment. */
  lemma PushKeeps(v: View, seg: Segment)
    requires v.Accounted() && !v.finTaken
    ensures v.Pushed(seg).Accounted()
    ensures v.Exact() ==> (v.Pushed(seg).Exact() <==> seg.PayloadLen() >= 0)
  {
    TotalAdd(v.log, seg.Payload());
    hide Mod32, Total;
    PushStep(v.Due(), v.short, seg.PayloadLen(), |seg.Payload()|, seg.Shortfall());
  }

  lemma FinKeeps(v: View, seg: Segment)
    requires v.Accounted() && !v.finTaken
    ensures v.Finned(seg).Accounted() && (v.Finned(seg).Exact() <==> v.Exact())
  {
    TotalAdd(v.log, []);
    hide Mod32;
    ModAdd(v.Due() - v.short, 1);
    RightNumber(v);
    RightNumber(v.Finned(seg));
  }

  /** A stream takes a pushed payload whose header claims more than the segment has. */
  predicate Overlong(v: View, seg: Segment) { v.status.Established? && seg.psh && seg.PayloadLen() < 0 }

  /** Every segment that a stream sends for one it gets: its port, the peer's, the number the peer expects, the
      number after what was kept. */
  lemma EachReply(v: View, seg: Segment)
    requires v.status.Established?
    ensures var w, r, p, q := v.After(seg), Reply(seg.dport, seg.sport, seg.acknum, 0, false, false),
                              Mod32(v.rcvNxt + seg.PayloadLen()), Mod32(v.rcvNxt + 1);
      && (!seg.psh && !seg.fin ==> w == v)
      && (seg.psh && !seg.fin ==> w.sndbuf == v.sndbuf + [r.(acknum := p)] && w.rcvNxt == p)
      && (!seg.psh && seg.fin ==> w.sndbuf == v.sndbuf + [r.(acknum := q)] && w.rcvNxt == q)
      && (seg.psh && seg.fin ==>
           w.sndbuf == v.sndbuf + [r.(acknum := p), r.(acknum := Mod32(p + 1))] && w.rcvNxt == Mod32(p + 1))
      && (seg.psh || seg.fin ==> w.sndNxt == seg.acknum)
  {
    hide Mod32;
  }

  /** What the push or the FIN branch tells the peer. */
  lemma AckedTells(v: View, w: View, r: Reply)
    requires v.sndbuf != [] && w.sndbuf == v.sndbuf + [r] && w.peerSeq == v.peerSeq && w.sport == v.sport && w.dport == v.dport
    requires v.Told() && !w.status.LastAck? && !w.status.Closed? && w.Accounted()
    requires r == Reply(w.dport, w.sport, w.sndNxt, w.rcvNxt, false, false)
    ensures w.Told()
  {
    hide Mod32, Total;
  }

  lemma PushTells(v: View, seg: Segment)
    requires v.Booked() && !v.finTaken && v.status.Established? && seg.sport == v.sport && seg.dport == v.dport
    ensures v.Pushed(seg).Booked()
  {
    PushKeeps(v, seg);
    hide Mod32, Total, View.Accounted, View.Told;
    AckedTells(v, v.Pushed(seg), Reply(seg.dport, seg.sport, v.Pushed(seg).sndNxt, v.Pushed(seg).rcvNxt, false, false));
  }

  lemma FinTells(v: View, seg: Segment)
    requires v.Booked() && !v.finTaken && v.status.Established? && seg.sport == v.sport && seg.dport == v.dport
    ensures v.Finned(seg).Booked()
  {
    FinKeeps(v, seg);
    hide Mod32, Total, View.Accounted, View.Told;
    AckedTells(v, v.Finned(seg), Reply(seg.dport, seg.sport, v.Finned(seg).sndNxt, v.Finned(seg).rcvNxt, false, false));
  }

  /** Where a segment takes a stream. */
  lemma StatusMoves(v: View, seg: Segment)
    ensures var w := v.After(seg);
      && (v.status.SynRcvd? ==> w.status == if seg.ack then Established else SynRcvd)
      && (v.status.Established? ==> w.status == if seg.fin then CloseWait else Established)
      && (v.status.LastAck? ==> w.status == if seg.ack then Closed else LastAck)
      && (v.status.CloseWait? || v.status.Closed? || v.status.Listen? ==> w == v)
      && (!v.status.Established? ==> w == v.(status := w.status))
  {
    hide Mod32;
  }

  /** The life of a passive connection: an ACK, one pushed segment, the FIN, nclose and the last ACK bring a stream to
      its end; it has kept just the payload and the end mark, and has told the peer the number behind all of it. */
  lemma WholeLife(syn: Segment, isn: Word32, ack: Segment, data: Segment, fin: Segment, last: Segment)
    requires ack.ack && data.psh && !data.fin && data.PayloadLen() > 0 && fin.fin && !fin.psh && last.ack
    ensures var v0 := Answered(syn, isn);
      var v1 := v0.After(ack);
      var v2 := v1.After(data);
      var v3 := v2.After(fin);
      var v4 := v3.Closing();
      var v5 := v4.After(last);
      && v0.status.SynRcvd? && v1.status.Established? && v2.status.Established? && v3.status.CloseWait?
      && v4.status.LastAck? && v5.status.Closed? && v5.log == [data.bytes[data.dataOff * 4..], []]
      && v5.sndbuf[|v5.sndbuf| - 1].fin
      && v5.sndbuf[|v5.sndbuf| - 1].acknum == Mod32(syn.seqnum + 2 + |data.bytes| - data.dataOff * 4)
  {
    var n := data.PayloadLen();
    ModAdd(syn.seqnum + 1, n);
    ModAdd(syn.seqnum + 1 + n, 1);
    hide Mod32;
  }

  /** A segment is its header and its payload. */
  lemma BehindHeader(seg: Segment)
    requires seg.PayloadLen() >= 0
    ensures seg.bytes[..seg.dataOff * 4] + seg.Payload() == seg.bytes && |seg.Payload()| == seg.PayloadLen()
  {
  }

  /** Numbers below 2^32 are themselves. */
  lemma ModSmall(x: Word32)
    ensures Mod32(x) == x
  {
  }

  /** The peer of a stream in order is told the right number last exactly if the stream's own is exact. */
  lemma LastTold(v: View)
    requires v.Booked()
    ensures v.sndbuf[|v.sndbuf| - 1].acknum == Mod32(v.Due()) <==> v.Exact()
    ensures v.Exact() <==> Mod32(v.short) == 0
  {
    RightNumber(v);
  }

  /** A segment keeps the books of a stream, and moves it forward on its path. */
  lemma AfterKeeps(v: View, seg: Segment)
    requires v.Sane() && !v.local && seg.sport == v.sport && seg.dport == v.dport
    ensures var w := v.After(seg);
      && w.Booked() && ((v.status.LastAck? && seg.ack) || w.Sane()) && Rank(v.status) <= Rank(w.status)
      && (v.Exact() ==> (w.Exact() <==> !Overlong(v, seg)))
      && w.peerSeq == v.peerSeq && v.log <= w.log && v.sndbuf <= w.sndbuf && w.fd == v.fd
  {
    if v.status.Established? {
      if seg.psh {
        PushKeeps(v, seg);
        PushTells(v, seg);
      }
      if seg.fin {
        FinKeeps(if seg.psh then v.Pushed(seg) else v, seg);
        FinTells(if seg.psh then v.Pushed(seg) else v, seg);
      }
    }
    hide Mod32, Total;
  }

  // ---------- a table ----------

  datatype Query =
    | Tuple(sip: Word32, dip: Word32, sport: int, dport: int)
    | Listener(port: int)
    | Descriptor(fd: int)
    | Unaccepted(port: int)

  predicate Meets(v: View, q: Query) {
    match q
    case Tuple(sip, dip, sport, dport) => v.sip == sip && v.dip == dip && v.sport == sport && v.dport == dport
    case Listener(port) => v.status.Listen? && v.dport == port
    case Descriptor(fd) => v.fd == fd
    case Unaccepted(port) => v.dport == port && v.fd == -1
  }

  /** The streams in the table, newest first, and how every stream that ever was in it looks. */
  datatype Moment<!S> = Moment(order: seq<S>, at: map<S, View>)

  function First<S>(order: seq<S>, at: map<S, View>, q: Query): (r: Option<S>)
    ensures r.Some? ==> r.value in order && r.value in at && Meets(at[r.value], q)
    ensures r.None? ==> forall s :: s in order && s in at ==> !Meets(at[s], q)
  {
    if order == [] then None
    else if order[0] in at && Meets(at[order[0]], q) then Some(order[0])
    else First(order[1..], at, q)
  }

  /** The first stream with a tuple, else the first that listens on the port. */
  function Found<S>(m: Moment<S>, sip: Word32, dip: Word32, sport: int, dport: int): Option<S> {
    var exact := First(m.order, m.at, Tuple(sip, dip, sport, dport));
    if exact.Some? then exact else First(m.order, m.at, Listener(dport))
  }

  /** The stream a segment goes to. */
  function Target<S>(m: Moment<S>, seg: Segment): Option<S> {
    Found(m, seg.sip, seg.dip, seg.sport, seg.dport)
  }

  /** Streams that do not meet a query need not be looked at again. */
  lemma {:induction false} FirstSkips<S>(order: seq<S>, at: map<S, View>, q: Query, i: nat)
    requires i <= |order| && forall k :: 0 <= k < i ==> order[k] in at && !Meets(at[order[k]], q)
    ensures First(order, at, q) == First(order[i..], at, q)
  {
    if i > 0 {
      var rest := order[1..];
      assert forall k :: 0 <= k < i - 1 ==> rest[k] == order[k + 1];
      FirstSkips(rest, at, q, i - 1);
      assert rest[i - 1..] == order[i..];
    } else {
      assert order[0..] == order;
    }
  }

  lemma FirstIs<S>(order: seq<S>, at: map<S, View>, q: Query, i: nat)
    requires i <= |order| && forall k :: 0 <= k < i ==> order[k] in at && !Meets(at[order[k]], q)
    requires i < |order| ==> order[i] in at && Meets(at[order[i]], q)
    ensures First(order, at, q) == if i < |order| then Some(order[i]) else None
  {
    FirstSkips(order, at, q, i);
  }

  lemma FirstHead<S>(order: seq<S>, at: map<S, View>, q: Query)
    requires order != [] && order[0] in at && Meets(at[order[0]], q)
    ensures First(order, at, q) == Some(order[0])
  {
  }

  lemma {:induction false} WithoutAt<S>(order: seq<S>, i: nat)
    requires Distinct(order) && i < |order|
    ensures Without(order, order[i]) == order[..i] + order[i + 1..]
  {
    if i > 0 {
      var rest := order[1..];
      assert forall k :: 0 <= k < |rest| ==> rest[k] == order[k + 1];
      WithoutAt(rest, i - 1);
      assert Without(order, order[i]) == [order[0]] + Without(rest, rest[i - 1]);
      hide Without, Distinct;
      assert order == [order[0]] + rest && order[..i] == [order[0]] + rest[..i - 1] && order[i + 1..] == rest[i..];
    }
  }

  function Without<S(==)>(order: seq<S>, x: S): (r: seq<S>)
    ensures forall s :: s in r ==> s in order
    ensures forall s :: s in order && s != x ==> s in r
  {
    if order == [] then []
    else if order[0] == x then order[1..]
    else [order[0]] + Without(order[1..], x)
  }

  /** One thing that happens to the stack.  `good` is the outcome of the checksum test, `isn` the random number of
      a new stream. */
  datatype Event =
    | Arrives(seg: Segment, good: bool, isn: Word32)
    | Closes(fd: int)
    | Accepts(port: int, newFd: int)
    | Opens(fd: int, port: int, ip: Word32, listening: bool)

  ghost predicate Joined<S>(a: Moment<S>, b: Moment<S>, v: View) {
    b.order != [] && b.order[0] !in a.at && b == Moment([b.order[0]] + a.order, a.at[b.order[0] := v])
  }

  /** What an event makes of a moment; only which new stream it is stays open. */
  ghost predicate Follows<S>(a: Moment<S>, e: Event, b: Moment<S>) {
    match e
    case Arrives(seg, good, isn) =>
      var target := Target(a, seg);
      if !good || target.None? then b == a
      else
        var hit := target.value;
        var v := a.at[hit];
        if v.status.Listen? then (if seg.syn then Joined(a, b, Answered(seg, isn)) else b == a)
        else b == Moment(if v.status.LastAck? && seg.ack then Without(a.order, hit) else a.order, a.at[hit := v.After(seg)])
    case Closes(fd) =>
      var hit := First(a.order, a.at, Descriptor(fd));
      if hit.None? then b == a
      else if a.at[hit.value].status.Listen? then b == Moment(Without(a.order, hit.value), a.at)
      else b == Moment(a.order, a.at[hit.value := a.at[hit.value].Closing()])
    case Accepts(port, newFd) =>
      var hit := First(a.order, a.at, Unaccepted(port));
      if hit.None? then b == a else b == Moment(a.order, a.at[hit.value := a.at[hit.value].(fd := newFd)])
    case Opens(fd, port, ip, listening) => Joined(a, b, Opened(fd, port, ip, listening))
  }

  /** The ACK of a passive open finds nobody to tell, and the process ends. */
  ghost predicate Stops<S>(a: Moment<S>, e: Event) {
    && e.Arrives? && e.good && e.seg.ack && Target(a, e.seg).Some?
    && var v := a.at[Target(a, e.seg).value];
       v.status.SynRcvd? && forall s :: s in a.order && s in a.at ==> !Meets(a.at[s], Tuple(0, 0, 0, v.dport)) && !Meets(a.at[s], Listener(v.dport))
  }

  /** A tuple with a peer in it: a local socket has 0 for both. */
  predicate Remote(v: View) { v.sip != 0 || v.sport != 0 }

  predicate SameTuple(v: View, w: View) { v.sip == w.sip && v.dip == w.dip && v.sport == w.sport && v.dport == w.dport }

  ghost predicate Distinct<S>(s: seq<S>) {
    forall i, j :: 0 <= i < j < |s| ==> s[i] != s[j]
  }

  /** No two streams have the same tuple with a peer. */
  ghost predicate OneEach<S>(m: Moment<S>) {
    forall s, t :: s in m.order && t in m.order && s in m.at && t in m.at && Remote(m.at[s]) && SameTuple(m.at[s], m.at[t]) ==> s == t
  }

  /** The list is one, tuples with a peer are distinct, and every stream is in order and accounted for. */
  ghost predicate Good<S>(m: Moment<S>) {
    && Distinct(m.order) && OneEach(m)
    && (forall s :: s in m.order ==> s in m.at && m.at[s].Sane())
    && (forall s :: s in m.at && !m.at[s].local ==> m.at[s].Booked())
  }

  // ---------- what one event keeps ----------

  lemma {:induction false} WithoutKeeps<S>(order: seq<S>, x: S)
    requires Distinct(order)
    ensures Distinct(Without(order, x)) && x !in Without(order, x)
  {
    if order != [] {
      var rest := order[1..];
      assert forall i :: 0 <= i < |rest| ==> rest[i] == order[i + 1];
      if order[0] != x {
        WithoutKeeps(rest, x);
        assert order[0] !in Without(rest, x);
      }
    }
  }

  lemma ChangeKeeps<S>(a: Moment<S>, b: Moment<S>, hit: S, w: View)
    requires Good(a) && hit in a.order && SameTuple(a.at[hit], w) && w.local == a.at[hit].local && b.at == a.at[hit := w]
    requires (b.order == a.order && w.Sane()) || (b.order == Without(a.order, hit) && (w.local || w.Booked()))
    ensures Good(b)
  {
    hide View.Sane, View.Booked;
    SaneBooked();
    WithoutKeeps(a.order, hit);
  }

  lemma SaneBooked()
    ensures forall v: View :: v.Sane() && !v.local ==> v.Booked()
  {
  }

  lemma JoinKeeps<S>(a: Moment<S>, b: Moment<S>, v: View)
    requires Good(a) && Joined(a, b, v) && v.Sane()
    requires Remote(v) ==> forall s :: s in a.order ==> !SameTuple(a.at[s], v)
    ensures Good(b)
  {
    hide View.Sane, View.Booked;
    SaneBooked();
    assert forall t :: t in b.order <==> t == b.order[0] || t in a.order;
  }

  /** A SYN that meets a listener comes from a tuple that no stream has. */
  lemma NewTuple<S>(a: Moment<S>, seg: Segment, isn: Word32)
    requires Good(a) && Target(a, seg).Some? && a.at[Target(a, seg).value].status.Listen?
    ensures Remote(Answered(seg, isn)) ==> forall s :: s in a.order ==> !SameTuple(a.at[s], Answered(seg, isn))
    ensures Answered(seg, isn).Sane() && Answered(seg, isn).Exact()
  {
    var hit := Target(a, seg).value;
    assert a.at[hit].Sane() && a.at[hit].local;
    assert Total([]) == 0;
    hide Mod32;
  }

  /** The segment goes to a stream that takes its payload, and its header is longer than all of it. */
  ghost predicate Misleads<S>(a: Moment<S>, e: Event) {
    e.Arrives? && e.good && Target(a, e.seg).Some? && Overlong(a.at[Target(a, e.seg).value], e.seg)
  }

  /** Every stream with a peer acknowledges exactly the bytes it has kept, and the FIN. */
  ghost predicate AllExact<S>(m: Moment<S>) {
    forall s :: s in m.at && !m.at[s].local ==> m.at[s].Exact()
  }

  /** A stream does not go back on its path, lose a byte or a reply, or get another peer number or, once it has
      one, another descriptor. */
  predicate Further(v: View, w: View) {
    && v.local == w.local && (v.local || (Rank(v.status) <= Rank(w.status) && v.peerSeq == w.peerSeq))
    && (v.local || (v.log <= w.log && v.sndbuf <= w.sndbuf && (v.fd != -1 ==> w.fd == v.fd)))
  }

  lemma FurtherOn(u: View, v: View, w: View)
    ensures Further(v, v) && (Further(u, v) && Further(v, w) ==> Further(u, w))
  {
  }

  /** No stream is forgotten, and none goes back. */
  ghost predicate Onward<S>(a: Moment<S>, b: Moment<S>) {
    forall s :: s in a.at ==> s in b.at && Further(a.at[s], b.at[s])
  }

  lemma HitKeeps<S>(a: Moment<S>, seg: Segment, isn: Word32, b: Moment<S>)
    requires Good(a) && Follows(a, Arrives(seg, true, isn), b) && Target(a, seg).Some?
    requires !a.at[Target(a, seg).value].status.Listen?
    ensures Good(b) && Onward(a, b)
    ensures AllExact(a) ==> (AllExact(b) <==> !Misleads(a, Arrives(seg, true, isn)))
  {
    var hit := Target(a, seg).value;
    var v := a.at[hit];
    var w := v.After(seg);
    assert v.Sane();
    if v.local {
      LocalAfter(v, seg);
    } else {
      assert Meets(v, Tuple(seg.sip, seg.dip, seg.sport, seg.dport));
      AfterKeeps(v, seg);
    }
    AfterTuple(v, seg);
    assert Further(v, w);
    hide View.Sane, View.Booked, View.Exact, View.After, Target, Good, SameTuple, Further;
    Stays();
    ChangeKeeps(a, b, hit, w);
  }

  lemma Stays()
    ensures forall v: View :: Further(v, v)
  {
  }

  lemma LocalAfter(v: View, seg: Segment)
    requires v.Sane() && v.local
    ensures (v.status.LastAck? && seg.ack) || v.After(seg).Sane()
  {
  }

  lemma AfterTuple(v: View, seg: Segment)
    ensures SameTuple(v, v.After(seg)) && v.After(seg).local == v.local
  {
  }

  lemma ClosingKeeps(v: View)
    requires v.Sane() && !v.status.Listen?
    ensures var w := v.Closing();
      && w.Sane() && SameTuple(v, w) && w.local == v.local && (w.Exact() <==> v.Exact()) && Further(v, w)
  {
    hide Mod32, Total;
  }

  lemma CloseKeeps<S>(a: Moment<S>, fd: int, b: Moment<S>)
    requires Good(a) && Follows(a, Closes(fd), b)
    ensures Good(b) && Onward(a, b) && (AllExact(a) ==> AllExact(b))
  {
    var hit := First(a.order, a.at, Descriptor(fd));
    if hit.Some? {
      var v := a.at[hit.value];
      assert v.Sane();
      if !v.status.Listen? { ClosingKeeps(v); }
      assert v.status.Listen? ==> v.local;
      assert !v.status.Listen? ==> Further(v, v.Closing());
      hide View.Sane, View.Booked, View.Exact, View.Closing, First, Good, SameTuple, Further;
      Stays();
      if v.status.Listen? {
        assert b.at == a.at[hit.value := v];
        SelfTuple(v);
        ChangeKeeps(a, b, hit.value, v);
      } else {
        ChangeKeeps(a, b, hit.value, v.Closing());
      }
    }
  }

  lemma SelfTuple(v: View)
    ensures SameTuple(v, v)
  {
  }

  lemma AcceptKeeps<S>(a: Moment<S>, port: int, newFd: int, b: Moment<S>)
    requires Good(a) && Follows(a, Accepts(port, newFd), b)
    ensures Good(b) && Onward(a, b) && (AllExact(a) ==> AllExact(b))
  {
    var hit := First(a.order, a.at, Unaccepted(port));
    if hit.Some? {
      var v := a.at[hit.value];
      var w := v.(fd := newFd);
      assert v.Sane() && w.Sane() && (w.Exact() <==> v.Exact());
      assert Further(v, w);
      hide View.Sane, View.Booked, View.Exact, First, Good, Further;
      Stays();
      ChangeKeeps(a, b, hit.value, w);
    }
  }

  /** What one event keeps: the invariant, every stream's way, and, unless the segment misleads, exactness. */
  lemma EventKeeps<S>(a: Moment<S>, e: Event, b: Moment<S>)
    requires Good(a) && Follows(a, e, b)
    ensures Good(b) && Onward(a, b)
    ensures AllExact(a) ==> (AllExact(b) <==> !Misleads(a, e))
  {
    Stays();
    hide Further;
    match e {
      case Arrives(seg, good, isn) =>
        if good && Target(a, seg).Some? {
          var v := a.at[Target(a, seg).value];
          if v.status.Listen? {
            if seg.syn {
              NewTuple(a, seg, isn);
              hide View.Sane, View.Booked, View.Exact, Target, Good, Answered, SameTuple;
              JoinKeeps(a, b, Answered(seg, isn));
            }
          } else {
            HitKeeps(a, seg, isn, b);
          }
        }
      case Closes(fd) => CloseKeeps(a, fd, b);
      case Accepts(port, newFd) => AcceptKeeps(a, port, newFd, b);
      case Opens(fd, port, ip, listening) =>
        hide View.Exact, Good;
        JoinKeeps(a, b, Opened(fd, port, ip, listening));
    }
  }

  // ---------- whole runs ----------

  /** `trace` are the moments of a run, `events` what happens between them. */
  ghost predicate Chronicle<S>(trace: seq<Moment<S>>, events: seq<Event>) {
    |trace| == |events| + 1 && forall i :: 0 <= i < |events| ==> Follows(trace[i], events[i], trace[i + 1])
  }

  /** At every moment tuples with a peer are distinct, and every stream that ever was in the table acknowledges
      the peer's initial number, its SYN, the bytes it has kept and its FIN, short of what overlong headers took. */
  lemma {:induction false} AlwaysGood<S>(trace: seq<Moment<S>>, events: seq<Event>, i: nat)
    requires Chronicle(trace, events) && Good(trace[0]) && i < |trace|
    ensures Good(trace[i])
  {
    hide Good, Follows;
    if i > 0 {
      AlwaysGood(trace, events, i - 1);
      EventKeeps(trace[i - 1], events[i - 1], trace[i - 1 + 1]);
    }
  }

  /** Between any two moments no stream goes back on its path, loses a byte it kept, or gets another peer number,
      be it in the table still or not. */
  lemma {:induction false} NeverBack<S>(trace: seq<Moment<S>>, events: seq<Event>, i: nat, j: nat)
    requires Chronicle(trace, events) && Good(trace[0]) && i <= j < |trace|
    ensures Onward(trace[i], trace[j])
    decreases j
  {
    hide Good, Follows, Further;
    Stays();
    if i < j {
      NeverBack(trace, events, i, j - 1);
      AlwaysGood(trace, events, j - 1);
      EventKeeps(trace[j - 1], events[j - 1], trace[j - 1 + 1]);
      forall s | s in trace[i].at ensures Further(trace[i].at[s], trace[j].at[s]) {
        FurtherOn(trace[i].at[s], trace[j - 1].at[s], trace[j].at[s]);
      }
    }
  }

  /** The numbers are exact up to a moment exactly if no segment has misled a stream by then. */
  lemma {:induction false} ExactWhile<S>(trace: seq<Moment<S>>, events: seq<Event>, i: nat)
    requires Chronicle(trace, events) && Good(trace[0]) && AllExact(trace[0]) && i < |trace|
    ensures (forall k :: 0 <= k <= i ==> AllExact(trace[k])) <==> forall k :: 0 <= k < i ==> !Misleads(trace[k], events[k])
  {
    hide Good, Follows, AllExact, Misleads;
    if i > 0 {
      ExactWhile(trace, events, i - 1);
      AlwaysGood(trace, events, i - 1);
      EventKeeps(trace[i - 1], events[i - 1], trace[i - 1 + 1]);
    }
  }

  /** At every moment the last segment that a stream with a peer has sent, in the table or not, goes from its port to
      the peer's, with its next number, and acknowledges what it has kept, short of what overlong headers took. */
  lemma AlwaysTold<S>(trace: seq<Moment<S>>, events: seq<Event>, i: nat, s: S)
    requires Chronicle(trace, events) && Good(trace[0]) && i < |trace| && s in trace[i].at && !trace[i].at[s].local
    ensures var v := trace[i].at[s]; v.sndbuf != [] && var last := v.sndbuf[|v.sndbuf| - 1];
      && last.sport == v.dport && last.dport == v.sport && last.seqnum == v.sndNxt
      && last.acknum == Mod32(v.peerSeq + 1 + Total(v.log) + (if v.finTaken then 1 else 0) - v.short)
  {
    AlwaysGood(trace, events, i);
    hide Mod32, Total;
  }

  /** Every peer has last been told the number behind all that was kept of it. */
  ghost predicate AllToldRight<S>(m: Moment<S>) {
    forall s :: s in m.at && !m.at[s].local ==>
      var v := m.at[s];
      var number := v.peerSeq + 1 + Total(v.log) + if v.finTaken then 1 else 0;
      v.sndbuf != [] && v.sndbuf[|v.sndbuf| - 1].acknum == Mod32(number)
  }

  lemma ToldIffExact<S>(m: Moment<S>)
    requires Good(m)
    ensures AllToldRight(m) <==> AllExact(m)
  {
    hide Mod32, Total;
    forall s | s in m.at && !m.at[s].local
      ensures m.at[s].Booked() && (m.at[s].sndbuf[|m.at[s].sndbuf| - 1].acknum == Mod32(m.at[s].Due()) <==> m.at[s].Exact())
    {
      LastTold(m.at[s]);
    }
  }

  /** What the peers are told is right up to a moment exactly if no segment has misled a stream by then. */
  lemma {:induction false} ToldRightWhile<S>(trace: seq<Moment<S>>, events: seq<Event>, i: nat)
    requires Chronicle(trace, events) && Good(trace[0]) && AllToldRight(trace[0]) && i < |trace|
    ensures (forall k :: 0 <= k <= i ==> AllToldRight(trace[k])) <==> forall k :: 0 <= k < i ==> !Misleads(trace[k], events[k])
  {
    hide Good, Follows, AllExact, AllToldRight, Misleads, Chronicle;
    forall k: nat | k <= i ensures AllToldRight(trace[k]) <==> AllExact(trace[k]) {
      AlwaysGood(trace, events, k);
      ToldIffExact(trace[k]);
    }
    ExactWhile(trace, events, i);
  }

  /** A pushed segment has no header longer than itself. */
  predicate WellFormed(e: Event) { e.Arrives? && e.seg.psh ==> e.seg.PayloadLen() >= 0 }

  lemma ExactIfWellFormed<S>(trace: seq<Moment<S>>, events: seq<Event>, i: nat)
    requires Chronicle(trace, events) && Good(trace[0]) && AllExact(trace[0]) && i < |trace|
    requires forall k :: 0 <= k < |events| ==> WellFormed(events[k])
    ensures AllExact(trace[i])
  {
    hide Good, Follows, AllExact;
    ExactWhile(trace, events, i);
  }

  /** What a stream keeps of an event. */
  ghost function Kept<S>(a: Moment<S>, e: Event, s: S): seq<Fragment> {
    if e.Arrives? && e.good && Target(a, e.seg) == Some(s) && s in a.at && a.at[s].status.Established?
    then (if e.seg.psh then [e.seg.Payload()] else []) + if e.seg.fin then [[]] else []
    else []
  }

  /** What a stream keeps between two moments. */
  ghost function KeptBetween<S>(trace: seq<Moment<S>>, events: seq<Event>, s: S, i: nat, j: nat): seq<Fragment>
    requires Chronicle(trace, events) && i <= j < |trace|
    decreases j
  {
    if i == j then [] else KeptBetween(trace, events, s, i, j - 1) + Kept(trace[j - 1], events[j - 1], s)
  }

  lemma LogGrows<S>(a: Moment<S>, e: Event, b: Moment<S>, s: S)
    requires Follows(a, e, b) && s in a.at
    ensures s in b.at && b.at[s].log == a.at[s].log + Kept(a, e, s)
  {
    hide Target, First, Without, Mod32;
  }

  /** The receive ring of a stream gets the payloads of the pushed segments that go to it while it is established,
      whole and in order, and one empty fragment for the FIN, and nothing else. */
  lemma {:induction false} Received<S>(trace: seq<Moment<S>>, events: seq<Event>, s: S, i: nat, j: nat)
    requires Chronicle(trace, events) && i <= j < |trace| && s in trace[i].at
    ensures s in trace[j].at && trace[j].at[s].log == trace[i].at[s].log + KeptBetween(trace, events, s, i, j)
    decreases j
  {
    hide Follows, Kept;
    if i < j {
      Received(trace, events, s, i, j - 1);
      LogGrows(trace[j - 1], events[j - 1], trace[j - 1 + 1], s);
    }
  }
}
