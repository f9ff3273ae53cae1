/** The passive side of the user-space TCP of ustack/tcp.c: the table of streams, and what an incoming segment, a
    close, an accept and a new socket do to it.  TcpSpec tells the same on values, and what follows over runs. */
module TcpStreams {
  import opened TcpSpec
  import opened Options

  class Stream {
    var fd: int
    var sip: Word32
    var dip: Word32
    var sport: int
    var dport: int
    var sndNxt: Word32
    var rcvNxt: Word32
    var status: Status
    var sndbuf: seq<Reply>
    var rcvbuf: seq<Fragment>

    ghost const local: bool          // made by nsocket, not for a remote peer
    ghost var peerSeq: Word32        // the peer's initial sequence number
    ghost var finTaken: bool
    ghost var short: nat             // the shortfalls of the pushed segments taken

    /** The stream of nsocket. */
    constructor Socket(fd: int, port: int, ip: Word32, listening: bool)
      ensures Look() == Opened(fd, port, ip, listening)
    {
      this.fd, sip, sport, dip, dport := fd, 0, 0, ip, port;
      sndNxt, rcvNxt, status, sndbuf, rcvbuf := 0, 0, if listening then Listen else Closed, [], [];
      local, peerSeq, finTaken, short := true, 0, false, 0;
    }

    /** ng_tcp_stream_create, with `isn` for the random initial sequence number. */
    constructor Create(sip: Word32, dip: Word32, sport: int, dport: int, isn: Word32)
      ensures Look() == View(-1, sip, dip, sport, dport, isn, 0, Listen, [], [], false, 0, false, 0)
    {
      fd := -1;
      this.sip, this.dip, this.sport, this.dport := sip, dip, sport, dport;
      sndNxt, rcvNxt, status, sndbuf, rcvbuf := isn, 0, Listen, [], [];
      local, peerSeq, finTaken, short := false, 0, false, 0;
    }

    predicate Has(sip: Word32, dip: Word32, sport: int, dport: int)
      reads this`sip, this`dip, this`sport, this`dport
    {
      this.sip == sip && this.dip == dip && this.sport == sport && this.dport == dport
    }

    ghost function Look(): View
      reads this
    {
      View(fd, sip, dip, sport, dport, sndNxt, rcvNxt, status, sndbuf, rcvbuf, local, peerSeq, finTaken, short)
    }

    /** ng_tcp_enqueue_recvbuffer, told how long the TCP part of the packet is. */
    method EnqueueRecvbuffer(seg: Segment, tcplen: int)
      requires tcplen > seg.dataOff * 4 ==> tcplen <= |seg.bytes|
      modifies this`rcvbuf
      ensures rcvbuf == old(rcvbuf) + [if tcplen - seg.dataOff * 4 > 0 then seg.bytes[seg.dataOff * 4..tcplen] else []]
    {
      var payloadlen := tcplen - seg.dataOff * 4;
      var f: Fragment := [];
      if payloadlen > 0 {
        f := seg.bytes[seg.dataOff * 4..seg.dataOff * 4 + payloadlen];
      }
      rcvbuf := rcvbuf + [f];
    }

    /** ng_tcp_send_ackpkt. */
    method SendAck(seg: Segment)
      modifies this`sndbuf
      ensures Look() == old(Look()).Acked(seg)
    {
      sndbuf := sndbuf + [Reply(seg.dport, seg.sport, sndNxt, rcvNxt, false, false)];
    }

    /** What ng_tcp_handle_listen sets in the stream it has made. */
    method AnswerSyn(seg: Segment)
      modifies this`rcvNxt, this`peerSeq, this`sndbuf, this`status
      ensures Look() == old(Look()).(rcvNxt := Mod32(seg.seqnum + 1), peerSeq := seg.seqnum, status := SynRcvd,
        sndbuf := [Reply(seg.dport, seg.sport, sndNxt, Mod32(seg.seqnum + 1), true, false)])
    {
      rcvNxt, peerSeq := Mod32(seg.seqnum + 1), seg.seqnum;
      sndbuf := [Reply(seg.dport, seg.sport, sndNxt, rcvNxt, true, false)];
      status := SynRcvd;
    }

    /** The push branch of ng_tcp_handle_established. */
    method TakePush(seg: Segment)
      modifies this`rcvbuf, this`sndbuf, this`rcvNxt, this`sndNxt, this`short
      ensures Look() == old(Look()).Pushed(seg)
    {
      EnqueueRecvbuffer(seg, seg.TcpLen());
      assert seg.PayloadLen() > 0 ==> seg.bytes[seg.dataOff * 4..|seg.bytes|] == seg.bytes[seg.dataOff * 4..];
      rcvNxt := Mod32(rcvNxt + seg.PayloadLen());
      short := short + seg.Shortfall();
      sndNxt := seg.acknum;
      SendAck(seg);
    }

    /** The FIN branch: one more, empty, fragment, and one more sequence number. */
    method TakeFin(seg: Segment)
      modifies this`rcvbuf, this`sndbuf, this`rcvNxt, this`sndNxt, this`status, this`finTaken
      ensures Look() == old(Look()).Finned(seg)
    {
      status := CloseWait;
      EnqueueRecvbuffer(seg, seg.dataOff);
      finTaken := true;
      rcvNxt := Mod32(rcvNxt + 1);
      sndNxt := seg.acknum;
      SendAck(seg);
    }

    /** The branch of nclose for a stream that does not listen. */
    method SendFin()
      modifies this`sndbuf, this`status
      ensures Look() == old(Look()).Closing()
    {
      sndbuf := sndbuf + [Reply(dport, sport, sndNxt, rcvNxt, false, true)];
      status := LastAck;
    }

    /** ng_tcp_handle_established. */
    method HandleEstablished(seg: Segment)
      requires status.Established?
      modifies this`rcvbuf, this`sndbuf, this`rcvNxt, this`sndNxt, this`status, this`finTaken, this`short
      ensures Look() == old(Look()).After(seg)
    {
      if seg.psh {
        TakePush(seg);
      }
      if seg.fin {
        TakeFin(seg);
      }
    }
  }

  function Opt(s: Stream?): Option<Stream> { if s == null then None else Some(s) }

  class Table {
    var tcbs: seq<Stream>  // the list of streams, newest first
    ghost var ever: set<Stream>  // every stream that ever was in it

    constructor ()
      ensures Valid() && tcbs == [] && ever == {}
    {
      tcbs, ever := [], {};
    }

    ghost function Now(): Moment<Stream>
      reads this, ever
    {
      Moment(tcbs, map s | s in ever :: s.Look())
    }

    /** The streams of the table are among those that ever were in it; tuples with a peer are distinct, and every
        stream is in order and accounted for. */
    ghost predicate Valid()
      reads this, ever
    {
      Good(Now())
    }

    /** ng_tcp_stream_search: the first stream with this tuple, else the first that listens on the port. */
    method Search(sip: Word32, dip: Word32, sport: int, dport: int) returns (r: Stream?)
      requires forall s :: s in tcbs ==> s in ever
      ensures Opt(r) == Found(Now(), sip, dip, sport, dport) && (r != null ==> r in tcbs)
      ensures (exists s :: s in tcbs && s.Has(sip, dip, sport, dport)) ==> r != null && r.Has(sip, dip, sport, dport)
      ensures r != null && !r.Has(sip, dip, sport, dport) ==> r.status.Listen? && r.dport == dport
      ensures r == null <==> forall s :: s in tcbs ==> !s.Has(sip, dip, sport, dport) && !(s.status.Listen? && s.dport == dport)
    {
      ghost var m, exact, listener := Now(), Tuple(sip, dip, sport, dport), Listener(dport);
      for i := 0 to |tcbs|
        invariant forall k :: 0 <= k < i ==> !Meets(m.at[tcbs[k]], exact)
      {
        if tcbs[i].Has(sip, dip, sport, dport) {
          FirstSkips(tcbs, m.at, exact, i);
          return tcbs[i];
        }
      }
      FirstSkips(tcbs, m.at, exact, |tcbs|);
      for i := 0 to |tcbs|
        invariant forall k :: 0 <= k < i ==> !Meets(m.at[tcbs[k]], listener)
      {
        if tcbs[i].dport == dport && tcbs[i].status.Listen? {
          FirstSkips(tcbs, m.at, listener, i);
          return tcbs[i];
        }
      }
      FirstSkips(tcbs, m.at, listener, |tcbs|);
      r := null;
    }

    /** ng_tcp_handle_listen: a SYN makes a new stream. */
    method HandleListen(stream: Stream, seg: Segment, isn: Word32)
      modifies this
      ensures if seg.syn then Added(old(tcbs), old(ever), Answered(seg, isn)) else tcbs == old(tcbs) && ever == old(ever)
      ensures seg.syn ==> fresh(tcbs[0])
    {
      if seg.syn {
        var syn := new Stream.Create(seg.sip, seg.dip, seg.sport, seg.dport, isn);
        tcbs, ever := [syn] + tcbs, ever + {syn};
        syn.AnswerSyn(seg);
      }
    }

    /** A stream that looks like `v` stands in front of what was there. */
    ghost predicate Added(tcbs0: seq<Stream>, ever0: set<Stream>, v: View)
      reads this, tcbs
    {
      |tcbs| > 0 && tcbs == [tcbs[0]] + tcbs0 && ever == ever0 + {tcbs[0]} && tcbs[0].Look() == v
    }

    /** Somebody can be told of a connection to the port. */
    ghost predicate Heard(port: int)
      reads this, tcbs
    {
      exists s :: s in tcbs && (Meets(s.Look(), Tuple(0, 0, 0, port)) || Meets(s.Look(), Listener(port)))
    }

    /** ng_tcp_handle_syn_rcvd: any ACK establishes; false when there is nobody left to tell, which ends the process. */
    method HandleSynRcvd(stream: Stream, seg: Segment) returns (alive: bool)
      requires stream in tcbs && stream.status.SynRcvd? && forall s :: s in tcbs ==> s in ever
      modifies stream`status
      ensures stream.Look() == old(stream.Look()).After(seg)
      ensures alive <==> old(!seg.ack || Heard(stream.dport))
    {
      alive := true;
      if seg.ack {
        stream.status := Established;
        var listener := Search(0, 0, 0, stream.dport);
        alive := listener != null;
      }
    }

    /** ng_tcp_handle_last_ack: an ACK takes the stream out of the table. */
    method HandleLastAck(stream: Stream, seg: Segment)
      requires Distinct(tcbs) && stream in tcbs && stream.status.LastAck?
      modifies this`tcbs, stream`status
      ensures stream.Look() == old(stream.Look()).After(seg)
      ensures tcbs == if seg.ack then Without(old(tcbs), stream) else old(tcbs)
    {
      if seg.ack {
        Unlink(stream);
        stream.status := Closed;
      }
    }

    /** LL_REMOVE. */
    method Unlink(stream: Stream)
      requires Distinct(tcbs) && stream in tcbs
      modifies this`tcbs
      ensures tcbs == Without(old(tcbs), stream)
    {
      var i :| 0 <= i < |tcbs| && tcbs[i] == stream;
      WithoutAt(tcbs, i);
      tcbs := tcbs[..i] + tcbs[i + 1..];
    }

    lemma ListFacts()
      requires Valid()
      ensures Distinct(tcbs) && forall s :: s in tcbs ==> s in ever
    {
    }

    /** The switch of ng_tcp_process. */
    method Dispatch(stream: Stream, seg: Segment, isn: Word32) returns (alive: bool)
      requires Distinct(tcbs) && stream in tcbs && forall s :: s in tcbs ==> s in ever
      modifies this, stream
      ensures old(stream.status).Listen? && seg.syn ==> Added(old(tcbs), old(ever), Answered(seg, isn)) && fresh(tcbs[0])
      ensures !(old(stream.status).Listen? && seg.syn) ==> ever == old(ever)
      ensures !(old(stream.status).Listen? && seg.syn) ==>
        tcbs == if old(stream.status).LastAck? && seg.ack then Without(old(tcbs), stream) else old(tcbs)
      ensures stream.Look() == old(stream.Look()).After(seg)
      ensures alive <==> old(!stream.status.SynRcvd? || !seg.ack || Heard(stream.dport))
    {
      alive := true;
      match stream.status {
        case Listen =>
          HandleListen(stream, seg, isn);
        case SynRcvd =>
          alive := HandleSynRcvd(stream, seg);
        case Established =>
          stream.HandleEstablished(seg);
        case LastAck =>
          HandleLastAck(stream, seg);
        case _ =>
      }
    }

    /** The moment after the switch. */
    method Handle(stream: Stream, seg: Segment, isn: Word32) returns (alive: bool)
      requires Valid() && stream in tcbs && Target(Now(), seg) == Some(stream)
      modifies this, tcbs
      ensures Follows(old(Now()), Arrives(seg, true, isn), Now())
      ensures alive <==> !Stops(old(Now()), Arrives(seg, true, isn))
      ensures ever >= old(ever) && fresh(ever - old(ever)) && forall s :: s in tcbs ==> s in old(tcbs) || fresh(s)
    {
      ListFacts();
      HeardOrStops(seg, true, isn, stream);
      ghost var a, v := Now(), stream.Look();
      ListenerStays(v, seg);
      hide Good, Found, View.After, Answered, Meets, Heard, Stops, Target, Follows;
      alive := Dispatch(stream, seg, isn);
      if v.status.Listen? && seg.syn {
        AddedJoins(a, Answered(seg, isn));
      } else {
        assert Now().at == a.at[stream := v.After(seg)];
      }
      HitFollows(a, seg, isn, stream, Now());
    }

    /** ng_tcp_process.  `good` is the outcome of the checksum test and `isn` the random number of a new stream. */
    method Process(seg: Segment, good: bool, isn: Word32) returns (code: int, alive: bool)
      requires Valid()
      modifies this, tcbs
      ensures Valid() && Follows(old(Now()), Arrives(seg, good, isn), Now())
      ensures code == if !good then -1 else if Target(old(Now()), seg).None? then -2 else 0
      ensures alive <==> !Stops(old(Now()), Arrives(seg, good, isn))
      ensures ever >= old(ever) && fresh(ever - old(ever)) && forall s :: s in tcbs ==> s in old(tcbs) || fresh(s)
    {
      ListFacts();
      Ignored(Now(), seg, good, isn);
      hide Good, Now, Follows, Stops, Found;
      ghost var a := Now();
      if !good { return -1, true; }
      var stream := Search(seg.sip, seg.dip, seg.sport, seg.dport);
      if stream == null { return -2, true; }
      alive := Handle(stream, seg, isn);
      code := 0;
      EventKeeps(a, Arrives(seg, good, isn), Now());
    }

    lemma Ignored(a: Moment<Stream>, seg: Segment, good: bool, isn: Word32)
      ensures !good || Target(a, seg).None? ==> Follows(a, Arrives(seg, good, isn), a) && !Stops(a, Arrives(seg, good, isn))
    {
    }

    lemma HitFollows(a: Moment<Stream>, seg: Segment, isn: Word32, hit: Stream, b: Moment<Stream>)
      requires Target(a, seg) == Some(hit) && hit in a.at
      requires var v := a.at[hit];
        if v.status.Listen? && seg.syn then Joined(a, b, Answered(seg, isn))
        else b == Moment(if v.status.LastAck? && seg.ack then Without(a.order, hit) else a.order, a.at[hit := v.After(seg)])
      ensures Follows(a, Arrives(seg, true, isn), b)
    {
      ListenerStays(a.at[hit], seg);
      hide Found, View.After, Answered;
      assert a.at[hit].status.Listen? ==> a.at[hit := a.at[hit]] == a.at;
    }

    lemma ListenerStays(v: View, seg: Segment)
      ensures v.status.Listen? ==> v.After(seg) == v
    {
    }

    lemma HeardOrStops(seg: Segment, good: bool, isn: Word32, stream: Stream)
      requires good && Target(Now(), seg) == Some(stream) && forall s :: s in tcbs ==> s in ever
      ensures Stops(Now(), Arrives(seg, good, isn)) <==> stream.status.SynRcvd? && seg.ack && !Heard(stream.dport)
    {
    }

    lemma AddedJoins(a: Moment<Stream>, v: View)
      requires tcbs != [] && Added(a.order, a.at.Keys, v) && tcbs[0] !in a.at
      requires forall s :: s in a.at ==> s.Look() == a.at[s]
      ensures Joined(a, Now(), v)
    {
    }

    /** get_hostinfo_fromfd, for TCP. */
    method FromFd(fd: int) returns (r: Stream?)
      requires forall s :: s in tcbs ==> s in ever
      ensures Opt(r) == First(tcbs, Now().at, Descriptor(fd)) && (r != null ==> r in tcbs)
    {
      ghost var m := Now();
      for i := 0 to |tcbs|
        invariant forall k :: 0 <= k < i ==> !Meets(m.at[tcbs[k]], Descriptor(fd))
      {
        if tcbs[i].fd == fd {
          FirstSkips(tcbs, m.at, Descriptor(fd), i);
          return tcbs[i];
        }
      }
      FirstSkips(tcbs, m.at, Descriptor(fd), |tcbs|);
      r := null;
    }

    /** nclose: a listener leaves the table, any other stream sends its FIN and waits for the last ACK. */
    method Close(fd: int) returns (code: int)
      requires Valid()
      modifies this, tcbs
      ensures Valid() && Follows(old(Now()), Closes(fd), Now())
      ensures code == if First(old(tcbs), old(Now()).at, Descriptor(fd)).None? then -1 else 0
      ensures ever == old(ever) && forall s :: s in tcbs ==> s in old(tcbs)
    {
      hide Good, First, Follows, View.Closing, Distinct;
      ListFacts();
      ghost var a := Now();
      var stream := FromFd(fd);
      CloseFollows(a, fd, stream);
      if stream == null { return -1; }
      Leave(stream);
      code := 0;
      EventKeeps(a, Closes(fd), Now());
    }

    /** What nclose does to the stream it has found. */
    method Leave(stream: Stream)
      requires Distinct(tcbs) && stream in tcbs && forall s :: s in tcbs ==> s in ever
      modifies this`tcbs, stream`sndbuf, stream`status
      ensures Now() == if old(stream.status).Listen? then Moment(Without(old(tcbs), stream), old(Now()).at)
                       else Moment(old(tcbs), old(Now()).at[stream := old(stream.Look()).Closing()])
    {
      ghost var a := Now();
      if stream.status != Listen {
        stream.SendFin();
        assert Now().at == a.at[stream := stream.Look()];
      } else {
        Unlink(stream);
        assert Now().at == a.at;
      }
    }

    lemma CloseFollows(a: Moment<Stream>, fd: int, hit: Stream?)
      requires First(a.order, a.at, Descriptor(fd)) == Opt(hit)
      ensures hit == null ==> Follows(a, Closes(fd), a)
      ensures hit != null ==> var s: Stream := hit; s in a.at && Follows(a, Closes(fd),
        if a.at[s].status.Listen? then Moment(Without(a.order, s), a.at) else Moment(a.order, a.at[s := a.at[s].Closing()]))
    {
    }

    /** The walk of naccept to the first stream of the port that has no descriptor yet. */
    method FirstUnaccepted(port: int) returns (apt: Stream?)
      requires forall s :: s in tcbs ==> s in ever
      ensures Opt(apt) == First(tcbs, Now().at, Unaccepted(port))
      ensures apt != null ==> apt in tcbs && apt.dport == port && apt.fd == -1
      ensures apt == null ==> forall s :: s in tcbs ==> !(s.dport == port && s.fd == -1)
    {
      ghost var m := Now();
      for i := 0 to |tcbs|
        invariant forall k :: 0 <= k < i ==> !Meets(m.at[tcbs[k]], Unaccepted(port))
      {
        if tcbs[i].dport == port && tcbs[i].fd == -1 {
          FirstIs(tcbs, m.at, Unaccepted(port), i);
          return tcbs[i];
        }
      }
      FirstIs(tcbs, m.at, Unaccepted(port), |tcbs|);
      apt := null;
    }

    lemma AcceptFollows(a: Moment<Stream>, port: int, newFd: int, hit: Stream?)
      requires First(a.order, a.at, Unaccepted(port)) == Opt(hit)
      ensures hit == null ==> Follows(a, Accepts(port, newFd), a)
      ensures hit != null ==> var s: Stream := hit;
        s in a.at && Follows(a, Accepts(port, newFd), Moment(a.order, a.at[s := a.at[s].(fd := newFd)]))
    {
    }

    /** naccept, when a stream for the port is there: the first one without a descriptor gets one. */
    method Accept(port: int, newFd: int) returns (apt: Stream?)
      requires Valid()
      modifies this, tcbs
      ensures Valid() && Follows(old(Now()), Accepts(port, newFd), Now())
      ensures Opt(apt) == First(old(tcbs), old(Now()).at, Unaccepted(port))
      ensures apt != null ==> apt in tcbs && apt.dport == port && old(apt.fd) == -1 && apt.fd == newFd
      ensures apt == null ==> forall s :: s in tcbs ==> !(s.dport == port && s.fd == -1)
      ensures tcbs == old(tcbs) && ever == old(ever)
    {
      hide Good, First, Follows, Distinct;
      ListFacts();
      ghost var a := Now();
      apt := FirstUnaccepted(port);
      AcceptFollows(a, port, newFd, apt);
      if apt != null {
        ghost var v := apt.Look();
        apt.fd := newFd;
        assert Now().at == a.at[apt := v.(fd := newFd)];
      }
      EventKeeps(a, Accepts(port, newFd), Now());
    }

    /** nsocket, nbind and nlisten (or the first two) in a row. */
    method Open(fd: int, port: int, ip: Word32, listening: bool) returns (s: Stream)
      requires Valid()
      modifies this
      ensures Valid() && Follows(old(Now()), Opens(fd, port, ip, listening), Now())
      ensures fresh(s) && tcbs == [s] + old(tcbs) && ever == old(ever) + {s} && s.Look() == Opened(fd, port, ip, listening)
    {
      hide Good;
      ghost var a := Now();
      s := new Stream.Socket(fd, port, ip, listening);
      tcbs, ever := [s] + tcbs, ever + {s};
      assert Now().at == a.at[s := s.Look()];
      EventKeeps(a, Opens(fd, port, ip, listening), Now());
    }
  }

  /** One event; the process goes on unless an ACK finds nobody to tell. */
  method Step(table: Table, e: Event) returns (alive: bool)
    requires table.Valid()
    modifies table, table.tcbs
    ensures table.Valid() && Follows(old(table.Now()), e, table.Now())
    ensures alive <==> !Stops(old(table.Now()), e)
    ensures table.ever >= old(table.ever) && fresh(table.ever - old(table.ever))
    ensures forall s :: s in table.tcbs ==> s in old(table.tcbs) || fresh(s)
  {
    hide Table.Valid, Table.Now, Follows;
    alive := true;
    match e {
      case Arrives(seg, good, isn) =>
        var code;
        code, alive := table.Process(seg, good, isn);
      case Closes(fd) =>
        var code := table.Close(fd);
      case Accepts(port, newFd) =>
        var apt := table.Accept(port, newFd);
      case Opens(fd, port, ip, listening) =>
        var s := table.Open(fd, port, ip, listening);
    }
  }

  lemma GoodNow(table: Table)
    requires table.Valid()
    ensures Good(table.Now())
  {
  }

  /** Any run: it goes through the moments its events make of the first one, until they are worked off or one of
      them ends the process; with well-formed segments exact numbers stay exact. */
  method Run(table: Table, events: seq<Event>) returns (alive: bool, done: nat, ghost trace: seq<Moment<Stream>>)
    requires table.Valid()
    modifies table, table.tcbs
    ensures table.Valid() && done <= |events| && (alive ==> done == |events|)
    ensures Chronicle(trace, events[..done]) && trace[0] == old(table.Now()) && trace[done] == table.Now()
    ensures forall i :: 0 <= i < done ==> (Stops(trace[i], events[i]) <==> i == done - 1 && !alive)
    ensures old(AllExact(table.Now())) && (forall i :: 0 <= i < |events| ==> WellFormed(events[i])) ==> AllExact(table.Now())
  {
    hide Table.Valid, Table.Now, Follows, Stops, AllExact;
    assert Good(table.Now()) by { GoodNow(table); }
    alive, done, trace := true, 0, [table.Now()];
    while done < |events| && alive
      invariant table.Valid() && done <= |events| && Chronicle(trace, events[..done])
      invariant trace[0] == old(table.Now()) && trace[done] == table.Now()
      invariant forall i :: 0 <= i < done ==> (Stops(trace[i], events[i]) <==> i == done - 1 && !alive)
      invariant forall i :: 0 <= i < |table.tcbs| ==> table.tcbs[i] in old(table.tcbs) || fresh(table.tcbs[i])
    {
      ghost var before := table.tcbs;
      forall s | s in before ensures s in old(table.tcbs) || fresh(s) {
        var i :| 0 <= i < |before| && before[i] == s;
      }
      alive := Step(table, events[done]);
      assert forall i :: 0 <= i < |table.tcbs| ==> table.tcbs[i] in before || fresh(table.tcbs[i]);
      assert events[..done + 1] == events[..done] + [events[done]];
      trace, done := trace + [table.Now()], done + 1;
    }
    if AllExact(trace[0]) && forall i :: 0 <= i < |events| ==> WellFormed(events[i]) {
      ExactIfWellFormed(trace, events[..done], done);
    }
  }

  /** A table with one socket that listens on the port. */
  method Listening(dip: Word32, dport: int) returns (table: Table, l: Stream)
    ensures table.Valid() && fresh(table) && fresh(table.ever) && table.ever == {l} && table.tcbs == [l]
    ensures l.Look() == Opened(3, dport, dip, true)
  {
    table := new Table();
    l := table.Open(3, dport, dip, true);
    assert table.Now().at[l] == l.Look();
  }

  /** A SYN that the listener `l` hears. */
  method HearSyn(table: Table, l: Stream, syn: Segment, isn: Word32) returns (s: Stream)
    requires table.Valid() && l in table.ever && Target(table.Now(), syn) == Some(l) && l.Look().status.Listen? && syn.syn
    modifies table, table.tcbs
    ensures table.Valid() && fresh(s) && table.tcbs == [s] + old(table.tcbs) && table.ever == old(table.ever) + {s}
    ensures s.Look() == Answered(syn, isn) && forall x :: x in old(table.ever) ==> x.Look() == old(x.Look())
  {
    hide Table.Valid, Found, Answered;
    assert table.Now().at[l] == l.Look();
    ghost var a := table.Now();
    var c, ok := table.Process(syn, true, isn);
    assert forall x :: x in a.at ==> table.Now().at[x] == a.at[x];
    s := table.tcbs[0];
    assert s in table.tcbs;
    assert table.Now().at[s] == s.Look();
    assert table.Now().at.Keys == table.ever;
  }

  /** A segment for the first stream of the table. */
  method HearFirst(table: Table, s: Stream, seg: Segment)
    requires table.Valid() && table.tcbs != [] && table.tcbs[0] == s && s in table.ever
    requires Meets(s.Look(), Tuple(seg.sip, seg.dip, seg.sport, seg.dport)) && (s.status.SynRcvd? || s.status.Established?)
    modifies table, table.tcbs
    ensures table.Valid() && table.tcbs == old(table.tcbs) && table.ever == old(table.ever)
    ensures s.Look() == old(s.Look()).After(seg)
  {
    HeadTarget(table.Now(), s, seg);
    hide Table.Valid, Found, View.After, Meets;
    assert table.Now().at[s] == s.Look();
    var c, ok := table.Process(seg, true, 0);
    assert table.Now().at[s] == s.Look();
    assert table.Now().at.Keys == table.ever;
  }

  /** A SYN and an ACK from one peer to a listener. */
  method Handshake(syn: Segment, isn: Word32) returns (table: Table, s: Stream)
    requires (syn.sip != 0 || syn.sport != 0) && syn.syn
    ensures table.Valid() && fresh(table) && fresh(table.ever) && table.tcbs != [] && table.tcbs[0] == s && s in table.ever
    ensures forall i :: 0 <= i < |table.tcbs| ==> fresh(table.tcbs[i])
    ensures s.Look() == Answered(syn, isn).(status := Established)
  {
    hide Table.Valid;
    var l;
    table, l := Listening(syn.dip, syn.dport);
    ListenerHears(table.Now(), l, syn);
    s := HearSyn(table, l, syn, isn);
    assert table.tcbs == [s, l];
    HearFirst(table, s, syn.(syn := false, ack := true, psh := false, fin := false));
  }

  /** After a handshake, one pushed segment of twenty bytes whose header claims sixty: it takes the number the
      peer is told back by forty, whoever the peer is. */
  method MisledStream(syn: Segment, isn: Word32) returns (table: Table, s: Stream)
    requires (syn.sip != 0 || syn.sport != 0) && syn.syn
    ensures table.Valid() && s in table.tcbs && s.Look().status.Established? && s.Look().peerSeq == syn.seqnum
    ensures s.rcvbuf == [[]] && s.rcvNxt == Mod32(syn.seqnum + 1 - 40) && !s.Look().Exact()
  {
    hide Table.Valid, Table.Now;
    table, s := Handshake(syn, isn);
    var zeros: Fragment := seq(20, _ => 0);
    HearFirst(table, s, syn.(syn := false, ack := true, psh := true, fin := false, dataOff := 15, bytes := zeros));
    ModAdd(syn.seqnum + 1, -40);
    Forty(syn.seqnum);
  }

  lemma Forty(seqnum: Word32)
    ensures Mod32(seqnum + 1 - 40) != Mod32(seqnum + 1 + Total([[]]))
  {
    ModSame(seqnum + 1, 40);
    var one: seq<Fragment> := [[]];
    assert one[1..] == [];
  }

  lemma ListenerHears(m: Moment<Stream>, l: Stream, seg: Segment)
    requires m.order == [l] && l in m.at && m.at[l].status.Listen? && m.at[l].dport == seg.dport
    ensures Target(m, seg) == Some(l)
  {
    FirstHead(m.order, m.at, Listener(seg.dport));
  }

  lemma HeadTarget(m: Moment<Stream>, s: Stream, seg: Segment)
    requires m.order != [] && m.order[0] == s && s in m.at
    requires Meets(m.at[s], Tuple(seg.sip, seg.dip, seg.sport, seg.dport))
    ensures Target(m, seg) == Some(s)
  {
    FirstHead(m.order, m.at, Tuple(seg.sip, seg.dip, seg.sport, seg.dport));
  }

  /** A SYN from address 0 and port 0. */
  function NobodySyn(dip: Word32, dport: int): Segment {
    Segment(0, dip, 0, dport, 0, 0, true, false, false, false, 5, [], 0)
  }

  /** A new listener hears such a SYN itself. */
  method ListenAndHear(table: Table, fd: int, dip: Word32, dport: int) returns (l: Stream, s: Stream)
    requires table.Valid()
    modifies table, table.tcbs
    ensures table.Valid() && fresh(l) && fresh(s) && l != s && table.tcbs == [s, l] + old(table.tcbs)
    ensures table.ever == old(table.ever) + {l, s} && s.Look() == Answered(NobodySyn(dip, dport), 0)
    ensures forall x :: x in old(table.ever) ==> x.Look() == old(x.Look())
  {
    hide Table.Valid, Answered;
    l := table.Open(fd, dport, dip, true);
    assert table.Now().at[l] == l.Look();
    HeadTarget(table.Now(), l, NobodySyn(dip, dport));
    s := HearSyn(table, l, NobodySyn(dip, dport), 0);
    assert table.tcbs == [s, l] + old(table.tcbs);
  }

  /** Without a peer in the tuple the table does not keep tuples apart: with a second listener on the port, two
      segments from address 0 and port 0 make two streams with one tuple. */
  method TwinsWithoutPeer(dip: Word32, dport: int) returns (table: Table, a: Stream, b: Stream)
    ensures table.Valid() && a in table.tcbs && b in table.tcbs && a != b && !a.local && !b.local
    ensures Meets(a.Look(), Tuple(0, dip, 0, dport)) && Meets(b.Look(), Tuple(0, dip, 0, dport))
  {
    hide Table.Valid;
    table := new Table();
    var l, l2;
    l, a := ListenAndHear(table, 3, dip, dport);
    assert table.tcbs == [a, l];
    l2, b := ListenAndHear(table, 4, dip, dport);
    assert table.tcbs == [b, l2, a, l];
  }
}
