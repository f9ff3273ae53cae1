/** The coroutine life cycle of nty_coroutine.c, the polling of nty_socket.c and the main loop of
    nty_schedule.c.  A resume runs a coroutine up to its next yield; what the coroutine does until then,
    and what the kernel reports, are unknown functions that every result here is proved for. */
module Scheduler {

  // The bits of nty_coroutine_status.
  const WAIT_READ: bv16 := 1
  const WAIT_WRITE: bv16 := 2
  const NEW: bv16 := 4
  const READY: bv16 := 8
  const EXITED: bv16 := 16
  const FDEOF: bv16 := 256
  const DETACH: bv16 := 512

  // nty_schedule_sched_wait ors in the enumerators themselves, not their bits.
  const ENUM_WAIT_READ: bv16 := 0
  const ENUM_WAIT_WRITE: bv16 := 1

  /** Where a coroutine's saved context will go on. */
  datatype Point = AtStart | InPoll(fd: int) | InSleep | AtEnd

  /** What a coroutine does between a resume and its next yield: it creates others, then gives up control. */
  datatype Yield = Poll(fd: int, write: bool) | Sleep | Exit
  datatype Burst = Burst(spawn: nat, last: Yield)

  /** One entry of the event list; `hup` is EPOLLHUP. */
  datatype Event = Event(fd: int, hup: bool)

  class Coroutine {
    const id: nat
    var status: bv16
    var fd: int
    var point: Point

    constructor (id: nat)
      ensures this.id == id && status == NEW && fd == -1 && point == AtStart
    {
      this.id := id;
      status, fd, point := NEW, -1, AtStart;
    }
  }

  ghost predicate Distinct<T>(s: seq<T>) {
    forall i, j :: 0 <= i < j < |s| ==> s[i] != s[j]
  }

  /** A batch of epoll: every entry is a registered descriptor, and none is there twice. */
  ghost predicate Reported(batch: seq<Event>, registered: set<int>) {
    && (forall i :: 0 <= i < |batch| ==> batch[i].fd in registered)
    && (forall i, j :: 0 <= i < j < |batch| ==> batch[i].fd != batch[j].fd)
  }

  /** What the main loop can see of a scheduler, and who was ever created and freed. */
  datatype Look = Look(ready: seq<Coroutine>, waiting: map<int, Coroutine>, made: set<Coroutine>, freed: seq<Coroutine>)
  {
    /** With `c` taken out of the head of the queue or out of the wait tree. */
    ghost function Without(c: Coroutine): Look {
      this.(ready := if ready != [] && ready[0] == c then ready[1..] else ready, waiting := Others(waiting, c))
    }

    /** `z` is what there is after `c`, taken out before, did `b`: whom it created joined the queue in order, behind
        them `c` itself if it sleeps, `c` waits for the descriptor it polls, and it is freed exactly if it exited. */
    ghost predicate Plays(c: Coroutine, b: Burst, z: Look) {
      && |ready| + b.spawn <= |z.ready|
      && var kids := z.ready[|ready|..|ready| + b.spawn];
      && Distinct(kids) && (forall k :: k in kids ==> k !in made) && z.made == made + Members(kids)
      && z.ready == ready + kids + (if b.last.Sleep? then [c] else [])
      && z.waiting == (if b.last.Poll? then waiting[b.last.fd := c] else waiting)
      && z.freed == if b.last.Exit? then freed + [c] else freed
    }

    /** `c` polls a descriptor that another coroutine is waiting for: an assertion ends the process. */
    ghost predicate Stuck(c: Coroutine, b: Burst) { b.last.Poll? && b.last.fd in Without(c).waiting }

    ghost predicate Next(c: Coroutine) {
      (ready != [] && ready[0] == c) || exists f :: f in waiting && waiting[f] == c
    }

    /** One resume of `c`, which is first in the queue or waits, and does not end the process. */
    ghost predicate Turn(c: Coroutine, b: Burst, z: Look) {
      Next(c) && !Stuck(c, b) && Without(c).Plays(c, b, z)
    }

    /** Nobody is queued twice, waits for two descriptors, waits and is queued, or was freed and is either. */
    ghost predicate Sound() {
      && Distinct(ready) && Distinct(freed)
      && (forall c :: c in ready ==> c in made && c !in freed)
      && (forall c :: c in freed ==> c in made)
      && (forall f :: f in waiting ==> waiting[f] in made && waiting[f] !in ready && waiting[f] !in freed)
      && (forall f, g :: f in waiting && g in waiting && waiting[f] == waiting[g] ==> f == g)
    }

    ghost predicate Done() { ready == [] && waiting == map[] }
  }

  ghost function Others(w: map<int, Coroutine>, c: Coroutine): map<int, Coroutine> {
    map f | f in w && w[f] != c :: w[f]
  }

  ghost function Members(s: seq<Coroutine>): set<Coroutine> { set c | c in s }

  class Schedule {
    var spawned: int
    var curr: Coroutine?
    var ready: seq<Coroutine>
    var waiting: map<int, Coroutine>
    var epoll: set<int>
    var events: seq<Event>
    var resumes: nat

    ghost var made: set<Coroutine>  // every coroutine ever created
    ghost var live: set<Coroutine>
    ghost var freed: seq<Coroutine>
    ghost var trace: seq<Coroutine>  // the coroutines resumed, in order
    ghost var looks: seq<Look>       // what each resume of the main loop found, and what the last one left

    const body: nat -> Burst                     // what the n-th resume runs
    const kernel: (nat, set<int>) -> seq<Event>  // what epoll_wait reports

    constructor (body: nat -> Burst, kernel: (nat, set<int>) -> seq<Event>)
      ensures Idle() && live == {} && trace == [] && Now() == Look([], map[], {}, [])
      ensures this.body == body && this.kernel == kernel
    {
      this.body, this.kernel := body, kernel;
      spawned, curr, ready, waiting, epoll, events, resumes := 0, null, [], map[], {}, [], 0;
      made, live, freed, trace, looks := {}, {}, [], [], [];
    }

    ghost function Now(): Look
      reads this`ready, this`waiting, this`made, this`freed
    {
      Look(ready, waiting, made, freed)
    }

    /** A coroutine in the ready queue or about to run: no wait bit, not exited, no end of file. */
    ghost predicate Runnable(c: Coroutine)
      reads c
    {
      match c.point
      case AtStart => c.status == NEW
      case InSleep => c.status == 0 || c.status == READY
      case _ => false
    }

    ghost predicate Waits(c: Coroutine, fd: int)
      reads c
    {
      c.fd == fd && c.point == InPoll(fd) && c.status & NEW == 0
    }

    /** `r` is the coroutine taken out to run, if any.  Every other live coroutine is in exactly one of the
        ready queue and the wait tree, a freed one is in neither, and the count is right. */
    ghost predicate Placed(r: Coroutine?)
      reads this`ready, this`waiting, this`live, this`made, this`freed, this`spawned, live
    {
      && Distinct(ready) && (forall c :: c in ready ==> c in live && c != r && Runnable(c))
      && (forall f :: f in waiting ==> waiting[f] in live && waiting[f] != r && waiting[f] !in ready && Waits(waiting[f], f))
      && (forall c :: c in live ==> c == r || c in ready || (c.fd in waiting && waiting[c.fd] == c))
      && (r != null ==> r in live)
      && spawned == |live|
      && Distinct(freed) && (forall c :: c in freed ==> c !in live)
      && (forall c :: c in made ==> c in live || c in freed) && live <= made && (forall c :: c in freed ==> c in made)
    }

    ghost predicate Inv(r: Coroutine?)
      reads this`ready, this`waiting, this`live, this`made, this`freed, this`spawned, this`epoll, live
    {
      Placed(r) && epoll == waiting.Keys
    }

    /** A live coroutine is running, queued, or waiting for exactly one descriptor: one of the three, never two. */
    lemma OneHome(r: Coroutine?, c: Coroutine)
      requires Inv(r) && c in made
      ensures c in live <==> c !in freed
      ensures c in live <==> c == r || c in ready || (exists f :: f in waiting && waiting[f] == c)
      ensures !(c == r && c in ready)
      ensures forall f :: f in waiting && waiting[f] == c ==> f == c.fd && c != r && c !in ready
    {
      assert forall f :: f in waiting ==> Waits(waiting[f], f);
    }

    /** nty_coroutine_create. */
    method Create(ghost r: Coroutine?) returns (co: Coroutine)
      requires Inv(r)
      modifies this`spawned, this`ready, this`live, this`made
      ensures Inv(r) && fresh(co) && ready == old(ready) + [co] && live == old(live) + {co}
      ensures co.id == old(spawned) && spawned == old(spawned) + 1 && made == old(made) + {co}
    {
      co := new Coroutine(spawned);
      spawned := spawned + 1;
      ready := ready + [co];
      live, made := live + {co}, made + {co};
      assert spawned == |live| && Distinct(ready);
      assert forall c :: c in live ==> c == r || c in ready || (c.fd in waiting && waiting[c.fd] == c);
    }

    /** nty_coroutine_free. */
    method Free(co: Coroutine)
      requires Inv(co)
      modifies this`spawned, this`live, this`freed
      ensures Inv(null) && live == old(live) - {co} && freed == old(freed) + [co] && spawned == old(spawned) - 1
    {
      spawned := spawned - 1;
      live := live - {co};
      freed := freed + [co];
    }

    /** nty_schedule_sched_wait with the timeout every caller passes; false if one of its assertions fails. */
    method SchedWait(co: Coroutine, fd: int, write: bool) returns (ok: bool)
      requires Placed(co) && (co.status == 0 || co.status == READY)
      modifies this`waiting, co
      ensures ok <==> fd !in old(waiting)
      ensures co.fd == fd && co.point == old(co.point)
      ensures co.status & EXITED == 0 && co.status & NEW == 0
      ensures waiting == if ok then old(waiting)[fd := co] else old(waiting)
    {
      if co.status & WAIT_READ != 0 || co.status & WAIT_WRITE != 0 {
        assert false;
      }
      if !write {
        co.status := co.status | ENUM_WAIT_READ;
      } else {
        co.status := co.status | ENUM_WAIT_WRITE;
      }
      co.fd := fd;
      if fd in waiting {
        return false;
      }
      waiting := waiting[fd := co];
      ok := true;
    }

    /** nty_poll_inner up to its yield, for one descriptor and timeout 1. */
    method PollBegin(co: Coroutine, fd: int, write: bool) returns (ok: bool)
      requires Inv(co) && (co.status == 0 || co.status == READY)
      modifies this`waiting, this`epoll, co
      ensures ok <==> fd !in old(waiting)
      ensures ok ==> Inv(null) && waiting == old(waiting)[fd := co]
      ensures !ok ==> co.fd == fd && waiting == old(waiting)
      ensures co.status & EXITED == 0 && co.status & NEW == 0
    {
      epoll := epoll + {fd};
      ok := SchedWait(co, fd, write);
      co.point := InPoll(fd);
    }

    /** nty_schedule_desched_wait. */
    method DeschedWait(fd: int) returns (co: Coroutine)
      requires fd in waiting
      modifies this`waiting, {waiting[fd]}`status
      ensures co == old(waiting[fd]) && waiting == old(waiting) - {fd} && co.status == 0
    {
      co := waiting[fd];
      waiting := waiting - {fd};
      co.status := 0;
    }

    /** nty_poll_inner after its yield. */
    method PollEnd(co: Coroutine)
      requires Inv(null) && co.fd in waiting && waiting[co.fd] == co
      modifies this`waiting, this`epoll, co`status
      ensures Inv(co) && waiting == old(waiting) - {co.fd} && co.status == 0
    {
      var fd := co.fd;
      epoll := epoll - {fd};
      var same := DeschedWait(fd);
    }

    /** The coroutine that made the process stop: it polls a descriptor another one is waiting for. */
    ghost predicate Clash()
      reads this, curr
    {
      curr != null && curr.fd in waiting && waiting[curr.fd] != curr
    }

    /** The coroutine in control creates `n` others. */
    method Spawn(co: Coroutine, n: nat) returns (ghost kids: seq<Coroutine>)
      requires Inv(co)
      modifies this`ready, this`live, this`made, this`spawned
      ensures Inv(co) && old(live) <= live && fresh(live - old(live))
      ensures |kids| == n && ready == old(ready) + kids && made == old(made) + Members(kids)
      ensures Distinct(kids) && forall k :: k in kids ==> k !in old(made)
    {
      kids := [];
      hide Inv, Placed;
      for i := 0 to n
        invariant Inv(co) && old(live) <= live && fresh(live - old(live))
        invariant |kids| == i && ready == old(ready) + kids && made == old(made) + Members(kids)
        invariant Distinct(kids) && forall k :: k in kids ==> k !in old(made)
      {
        ghost var before := made;
        var child := Create(co);
        assert child !in before;
        kids := kids + [child];
      }
    }

    /** What the coroutine in control does until it yields. */
    method Run(co: Coroutine, b: Burst) returns (ok: bool, ghost kids: seq<Coroutine>)
      requires Inv(co) && curr == co && (co.status == 0 || co.status == READY)
      modifies this`waiting, this`epoll, this`ready, this`live, this`made, this`spawned, co
      ensures |kids| == b.spawn && Distinct(kids) && (forall k :: k in kids ==> k !in old(made))
      ensures ready == old(ready) + kids + (if b.last.Sleep? then [co] else []) && made == old(made) + Members(kids)
      ensures old(live) <= live && fresh(live - old(live))
      ensures ok <==> !(b.last.Poll? && b.last.fd in old(waiting))
      ensures !ok ==> Clash() && co.fd == b.last.fd && waiting == old(waiting)
      ensures ok ==> if b.last.Exit? then Inv(co) && co.status & EXITED != 0 && co.status & DETACH != 0
                     else Inv(null) && co.status & EXITED == 0
      ensures ok ==> waiting == if b.last.Poll? then old(waiting)[b.last.fd := co] else old(waiting)
    {
      kids := Spawn(co, b.spawn);
      match b.last {
        case Poll(fd, write) =>
          ok := PollBegin(co, fd, write);
        case Sleep =>
          ready := ready + [co];
          co.point := InSleep;
          ok := true;
        case Exit =>
          co.status := co.status | EXITED | FDEOF | DETACH;
          co.point := AtEnd;
          ok := true;
      }
    }

    ghost predicate CanResume(co: Coroutine, fromReady: bool)
      reads this`ready, this`waiting, this`live, this`made, this`freed, this`spawned, this`epoll, live, co
    {
      if fromReady then Inv(co) && Runnable(co) else Inv(null) && co.fd in waiting && waiting[co.fd] == co
    }

    /** Control goes to `co`, which leaves the wait tree first if that is where it yielded. */
    method Enter(co: Coroutine, ghost fromReady: bool)
      requires CanResume(co, fromReady)
      modifies this`curr, this`trace, this`resumes, this`waiting, this`epoll, co`status
      ensures Inv(co) && curr == co && trace == old(trace) + [co] && resumes == old(resumes) + 1
      ensures co.status == 0 || co.status == READY
      ensures waiting == if fromReady then old(waiting) else old(waiting) - {co.fd}
    {
      assert !fromReady ==> Waits(co, co.fd);
      if co.status & NEW != 0 {
        co.status := READY;
      }
      assert fromReady ==> Inv(co);
      assert fromReady ==> !co.point.InPoll? && (co.status == 0 || co.status == READY);
      curr := co;
      trace := trace + [co];
      resumes := resumes + 1;
      if co.point.InPoll? {
        PollEnd(co);
      }
    }

    lemma TakenOut(co: Coroutine, fromReady: bool)
      requires CanResume(co, fromReady)
      ensures var out := if fromReady then waiting else waiting - {co.fd};
        Now().Without(co) == Look(ready, out, made, freed)
    {
      assert forall f :: f in waiting ==> Waits(waiting[f], f);
      assert ready != [] ==> ready[0] in ready && ready[0] != co;
      if fromReady {
        assert Others(waiting, co) == waiting;
      } else {
        assert Others(waiting, co) == waiting - {co.fd};
      }
    }

    /** What a coroutine whose saved context goes on does, up to its next yield. */
    method Continue(co: Coroutine, b: Burst, ghost fromReady: bool) returns (ok: bool, ghost kids: seq<Coroutine>)
      requires CanResume(co, fromReady)
      modifies this, co
      ensures fresh(live - old(live)) && events == old(events) && looks == old(looks) && freed == old(freed)
      ensures trace == old(trace) + [co] && resumes == old(resumes) + 1
      ensures var out := old(Now()).Without(co);
        && ready == out.ready + kids + (if b.last.Sleep? then [co] else [])
        && (ok <==> !(b.last.Poll? && b.last.fd in out.waiting))
        && (ok ==> waiting == if b.last.Poll? then out.waiting[b.last.fd := co] else out.waiting)
      ensures |kids| == b.spawn && Distinct(kids) && (forall k :: k in kids ==> k !in old(made))
      ensures made == old(made) + Members(kids)
      ensures ok ==> if b.last.Exit? then Inv(co) && co.status & EXITED != 0 && co.status & DETACH != 0
                     else Inv(null) && co.status & EXITED == 0
      ensures !ok ==> Clash()
    {
      hide *;
      TakenOut(co, fromReady);
      Enter(co, fromReady);
      ok, kids := Run(co, b);
    }

    /** nty_coroutine_resume of a coroutine just taken from the ready queue, or found in the wait tree. */
    method Resume(co: Coroutine, ghost fromReady: bool) returns (ok: bool)
      requires CanResume(co, fromReady)
      modifies this, co
      ensures fresh(live - old(live)) && events == old(events)
      ensures trace == old(trace) + [co] && resumes == old(resumes) + 1
      ensures ok <==> !old(Now()).Stuck(co, body(old(resumes)))
      ensures ok ==> Inv(null) && curr == null && old(Now()).Without(co).Plays(co, body(old(resumes)), Now())
      ensures looks == if ok then old(looks) + [Now()] else old(looks)
      ensures !ok ==> Clash() && old(freed) == freed && old(made) <= made
    {
      var b := body(resumes);
      ghost var a := Now();
      StuckIf(a, co, b);
      hide Placed, Inv, Runnable, CanResume, Clash, Look.Plays, Look.Stuck, Look.Without;
      ghost var kids;
      ok, kids := Continue(co, b, fromReady);
      if ok {
        curr := null;
        if co.status & EXITED != 0 {
          if co.status & DETACH != 0 {
            Free(co);
          }
        }
        Played(a, co, b, kids, Now());
        looks := looks + [Now()];
      }
    }

    /** nty_schedule_isdone, for the scope in which no coroutine sleeps. */
    predicate IsDone()
      reads this
    {
      |waiting| == 0 && |ready| == 0
    }

    lemma DoneMeansNoneLive()
      requires Inv(null)
      ensures IsDone() <==> live == {}
      ensures live == {} ==> spawned == 0 && epoll == {} && forall c :: c in made ==> c in freed
    {
      assert ready != [] ==> ready[0] in live;
      assert forall f :: f in waiting ==> waiting[f] in live;
      assert |waiting| == 0 <==> waiting == map[];
      if live != {} {
        var c :| c in live;
        assert c in ready || c.fd in waiting;
      } else {
        assert forall f :: f !in waiting;
      }
    }

    /** What holds between two runs of the main loop. */
    ghost predicate Idle()
      reads this, live
    {
      Inv(null) && curr == null && resumes == |trace| <= |looks|
    }

    /** What holds between its steps. */
    ghost predicate Watched()
      reads this, live
    {
      Idle() && |looks| == |trace| + 1 && looks[|trace|] == Now()
    }

    /** The invariant as the main loop can see it. */
    lemma IdleSound()
      requires Inv(null)
      ensures Now().Sound()
    {
      assert forall f :: f in waiting ==> Waits(waiting[f], f);
    }

    lemma IdleFacts()
      requires Inv(null)
      ensures Distinct(ready) && epoll == waiting.Keys
      ensures forall f :: f in waiting ==> waiting[f].fd == f
    {
      assert forall f :: f in waiting ==> Waits(waiting[f], f);
    }

    /** TAILQ_FIRST and TAILQ_REMOVE; the end-of-file bit, which would free the coroutine unrun, is not set. */
    method Dequeue() returns (co: Coroutine)
      requires Inv(null) && ready != []
      modifies this`ready
      ensures CanResume(co, true) && co in live && co == old(ready[0]) && ready == old(ready[1..])
      ensures co.status & FDEOF == 0
    {
      co := ready[0];
      ready := ready[1..];
    }

    lemma TakenFirst(a: Look, co: Coroutine)
      requires CanResume(co, true) && a == Now().(ready := [co] + ready)
      ensures a.Without(co) == Now().Without(co) && a.Without(co).ready == ready
    {
      assert ready != [] ==> ready[0] in ready && ready[0] != co;
    }

    lemma Begin()
      requires Watched()
      ensures Distinct(ready) && Went(trace, looks, trace, looks, body)
      ensures ready != [] ==> ready[|ready| - 1] in ready && forall i :: 0 <= i < |ready| - 1 ==> ready[i] != ready[|ready| - 1]
    {
      NoneWent(trace, looks, body);
    }

    /** One round of step 2. */
    method OneReady(ghost t0: seq<Coroutine>, ghost l0: seq<Look>) returns (ok: bool, co: Coroutine)
      requires Watched() && ready != [] && Went(t0, l0, trace, looks, body)
      modifies this, live
      ensures fresh(live - old(live)) && old(freed) <= freed && old(made) <= made
      ensures co == old(ready)[0] && trace == old(trace) + [co]
      ensures Went(t0, l0, trace, looks, body)
      ensures ok ==> Watched() && old(ready)[1..] <= ready
      ensures !ok ==> Clash() && Stops(looks, trace, body)
    {
      ghost var a, t, l := Now(), trace, looks;
      hide Placed, Inv, CanResume, Runnable, Clash, Look.Turn, Look.Stuck, Look.Plays, Look.Without, Went, Stops;
      co := Dequeue();
      assert old(ready) == [co] + ready;
      TakenFirst(a, co);
      ghost var a1 := Now();
      if co.status & FDEOF != 0 {
        assert false;
      }
      ok := Resume(co, true);
      SameTurn(a, a1, co, body(|t|), Now());
      if ok {
        TurnAdds(a, co, body(|t|), Now());
      }
      Gone(t0, l0, t, l, body, co, Now(), ok);
    }

    /** Step 2 of the main loop: it resumes the coroutines queued when it begins, in order and once each. */
    method ReadyPass() returns (ok: bool)
      requires Watched()
      modifies this, live
      ensures fresh(live - old(live)) && old(freed) <= freed && old(made) <= made
      ensures Went(old(trace), old(looks), trace, looks, body)
      ensures ok ==> Watched() && trace == old(trace) + old(ready)
      ensures !ok ==> Clash() && Stops(looks, trace, body) && old(trace) < trace <= old(trace) + old(ready)
    {
      hide *;
      Begin();
      ghost var q, n := ready, 0;
      var last := if ready == [] then null else ready[|ready| - 1];
      while ready != []
        invariant Watched() && fresh(live - old(live)) && old(freed) <= freed && old(made) <= made
        invariant n < |q| || q == []
        invariant n <= |q| && trace == old(trace) + q[..n] && q[n..] <= ready
        invariant q == [] ==> ready == []
        invariant Went(old(trace), old(looks), trace, looks, body)
        decreases |q| - n
      {
        var co;
        ok, co := OneReady(old(trace), old(looks));
        NextOf(q, n, old(trace));
        n := n + 1;
        if !ok { return; }
        if co == last { break; }
      }
      ok := true;
    }

    /** nty_schedule_search_wait; the main loop then notes an end of file. */
    method SearchWait(fd: int, hup: bool) returns (co: Coroutine)
      requires Inv(null) && fd in waiting
      modifies live`status
      ensures Inv(null) && CanResume(co, false) && co in live && co == waiting[fd] && co.fd == fd
    {
      co := waiting[fd];
      co.status := 0;
      if hup {
        co.status := co.status | FDEOF;
      }
    }

    ghost predicate FairKernel()
    {
      forall n, s :: Reported(kernel(n, s), s)
    }

    /** nty_schedule_epoll. */
    method Epoll()
      requires Watched() && FairKernel()
      modifies this`events
      ensures Watched() && Reported(events, waiting.Keys)
      ensures events == if ready == [] then kernel(resumes, waiting.Keys) else []
    {
      if ready == [] {
        events := kernel(resumes, epoll);
        assert Reported(events, epoll);
      } else {
        events := [];
      }
    }

    /** One round of step 3: the last entry of the batch resumes its waiter; the others still have theirs. */
    method OneEvent(ghost w: map<int, Coroutine>, ghost t0: seq<Coroutine>, ghost l0: seq<Look>) returns (ok: bool)
      requires Watched() && events != [] && Awaited(events, waiting, w) && Went(t0, l0, trace, looks, body)
      modifies this, live
      ensures fresh(live - old(live)) && old(freed) <= freed && old(made) <= made
      ensures events == old(events)[..|old(events)| - 1]
      ensures Waiters(old(events), w) != [] && trace == old(trace) + Waiters(old(events), w)[..1]
      ensures Waiters(old(events), w) == Waiters(old(events), w)[..1] + Waiters(events, w)
      ensures Went(t0, l0, trace, looks, body)
      ensures ok ==> Watched() && Awaited(events, waiting, w)
      ensures !ok ==> Clash() && Stops(looks, trace, body)
    {
      ghost var a, t, l := Now(), trace, looks;
      hide Placed, Inv, CanResume, Runnable, FairKernel, Clash, Look.Turn, Look.Stuck, Look.Plays, Look.Without, Went, Stops;
      LastWaiter(events, waiting, w);
      var ev := events[|events| - 1];
      events := events[..|events| - 1];
      var co := SearchWait(ev.fd, ev.hup);
      IdleFacts();
      ok := Resume(co, false);
      SameTurn(a, a, co, body(|t|), Now());
      if ok {
        TurnAdds(a, co, body(|t|), Now());
      }
      Gone(t0, l0, t, l, body, co, Now(), ok);
    }

    /** Step 3 of the main loop: every reported descriptor resumes its own waiter, once. */
    method EventPass() returns (ok: bool)
      requires Watched() && Reported(events, waiting.Keys)
      modifies this, live
      ensures fresh(live - old(live)) && old(freed) <= freed && old(made) <= made
      ensures Went(old(trace), old(looks), trace, looks, body)
      ensures ok ==> Watched() && events == [] && trace == old(trace) + Waiters(old(events), old(waiting))
      ensures !ok ==> Clash() && Stops(looks, trace, body)
      ensures !ok ==> old(trace) < trace <= old(trace) + Waiters(old(events), old(waiting))
    {
      hide *;
      Begin();
      AllAwaited(events, waiting);
      ghost var w, all := waiting, Waiters(events, waiting);
      ghost var past := [];
      while |events| > 0
        invariant Watched() && fresh(live - old(live)) && old(freed) <= freed && old(made) <= made
        invariant Awaited(events, waiting, w)
        invariant trace == old(trace) + past && past + Waiters(events, w) == all
        invariant Went(old(trace), old(looks), trace, looks, body)
        decreases |events|
      {
        ghost var left := Waiters(events, w);
        ok := OneEvent(w, old(trace), old(looks));
        past := past + left[..1];
        if !ok { return; }
      }
      NoWaiters(events, w);
      ok := true;
    }

    /** One round of the main loop, of what is done in it while no coroutine sleeps for a time. */
    method OneRound() returns (ok: bool)
      requires Watched() && FairKernel() && !Now().Done()
      modifies this, live
      ensures fresh(live - old(live)) && old(freed) <= freed && old(made) <= made
      ensures Went(old(trace), old(looks), trace, looks, body)
      ensures ok ==> Watched() && Round(looks, trace, kernel, |old(trace)|, |trace|)
      ensures !ok ==> Clash() && Stops(looks, trace, body) && BrokenOff(looks, trace, kernel, |old(trace)|)
    {
      hide Inv, Placed, Clash, Turns, Look.Turn, Look.Stuck, Stops, Round, BrokenOff, FairKernel, Reported;
      ghost var t0, l0 := trace, looks;
      ok := ReadyPass();
      ghost var t1, l1 := trace, looks;
      if !ok {
        BrokenFirst(t0, l0, t1, l1, kernel);
        return;
      }
      Epoll();
      assert Third(Now(), kernel, |trace|) == Waiters(events, waiting);
      ok := EventPass();
      WentOn(t0, l0, t1, l1, trace, looks, body);
      if ok {
        RoundMade(t0, l0, t1, l1, trace, looks, kernel);
      } else {
        BrokenThird(t0, l0, t1, l1, trace, looks, kernel);
      }
    }

    /** nty_schedule_run, followed for any number of rounds; `cuts` are the numbers of resumes at which they begin. */
    method MainLoop(rounds: nat) returns (ok: bool, done: bool, ghost cuts: seq<nat>)
      requires Idle() && FairKernel()
      modifies this, live
      ensures ok ==> Idle() && (done <==> live == {})
      ensures ok && done ==> spawned == 0 && epoll == {} && forall c :: c in made ==> c in freed
      ensures old(freed) <= freed && old(made) <= made
      ensures |looks| > |old(trace)| && looks[|old(trace)|] == old(Now()) && old(trace) <= trace
      ensures Turns(looks, trace, body, |old(trace)|) && Rounds(looks, trace, kernel, cuts) && cuts[0] == |old(trace)|
      ensures ok ==> cuts[|cuts| - 1] == |trace| && |looks| == |trace| + 1 && looks[|trace|] == Now()
      ensures ok ==> (done <==> Now().Done()) && |cuts| - 1 <= rounds && (!done ==> |cuts| - 1 == rounds)
      ensures !ok ==> Clash() && Stops(looks, trace, body)
      ensures !ok ==> |cuts| <= rounds && BrokenOff(looks, trace, kernel, cuts[|cuts| - 1])
    {
      hide Placed, Inv, CanResume, Runnable, Clash, Look.Turn, Look.Stuck, Turns, Stops, Round, BrokenOff, FairKernel;
      hide Rounds;
      looks := looks[..|trace|] + [Now()];
      ghost var l0 := looks;
      NoneWent(trace, looks, body);
      cuts := [|trace|];
      NoRounds(looks, trace, kernel);
      var n := 0;
      DoneMeansNoneLive();
      done := IsDone();
      while !done && n < rounds
        invariant Watched() && fresh(live - old(live)) && old(freed) <= freed && old(made) <= made
        invariant done <==> live == {}
        invariant done <==> Now().Done()
        invariant Went(old(trace), l0, trace, looks, body) && Rounds(looks, trace, kernel, cuts)
        invariant |cuts| == n + 1 && cuts[0] == |old(trace)| && cuts[n] == |trace| && n <= rounds
      {
        ghost var t, l := trace, looks;
        ok := OneRound();
        WentOn(old(trace), l0, t, l, trace, looks, body);
        RoundsOn(t, l, trace, looks, kernel, cuts);
        if !ok { return; }
        cuts := cuts + [|trace|];
        DoneMeansNoneLive();
        done := IsDone();
        n := n + 1;
      }
      DoneMeansNoneLive();
      ok := true;
    }
  }

  /** The coroutines that wait for the descriptors of a batch, in the order it is worked off; nobody is resumed for
      a descriptor that nobody waits for. */
  ghost function Waiters(batch: seq<Event>, w: map<int, Coroutine>): seq<Coroutine> {
    if batch == [] then
      []
    else
      var fd := batch[|batch| - 1].fd;
      (if fd in w then [w[fd]] else []) + Waiters(batch[..|batch| - 1], w)
  }

  /** Every descriptor of a batch is still waited for by whom it was in `w`. */
  ghost predicate Awaited(batch: seq<Event>, now: map<int, Coroutine>, w: map<int, Coroutine>) {
    Reported(batch, now.Keys) && forall i :: 0 <= i < |batch| ==> batch[i].fd in w && now[batch[i].fd] == w[batch[i].fd]
  }

  /** From resume number `lo` on, each changes the scheduler as `Turn` says, and between two nothing changes it. */
  ghost predicate Turns(looks: seq<Look>, trace: seq<Coroutine>, body: nat -> Burst, lo: nat) {
    forall i: nat :: lo <= i < |trace| && i + 1 < |looks| ==> looks[i].Turn(trace[i], body(i), looks[i + 1])
  }

  /** A history grew, by turns. */
  ghost predicate Went(t0: seq<Coroutine>, l0: seq<Look>, trace: seq<Coroutine>, looks: seq<Look>, body: nat -> Burst) {
    t0 <= trace && l0 <= looks && Turns(looks, trace, body, |t0|)
  }

  /** The coroutine resumed last ended the process. */
  ghost predicate Stops(looks: seq<Look>, trace: seq<Coroutine>, body: nat -> Burst) {
    |looks| == |trace| > 0 && looks[|trace| - 1].Stuck(trace[|trace| - 1], body(|trace| - 1))
  }

  /** Whom step 3 resumes, if resume number `q` is the next when it begins. */
  ghost function Third(m: Look, kernel: (nat, set<int>) -> seq<Event>, q: nat): seq<Coroutine> {
    if m.ready == [] then Waiters(kernel(q, m.waiting.Keys), m.waiting) else []
  }

  /** Resumes number `p` up to `z` make one round: first those queued at its start; then, if that leaves the queue
      empty, those whose descriptors the kernel reports of what is waiting at that moment. */
  ghost predicate Round(looks: seq<Look>, trace: seq<Coroutine>, kernel: (nat, set<int>) -> seq<Event>, p: nat, z: nat) {
    && p < |looks| && !looks[p].Done()
    && var q := p + |looks[p].ready|;
    && q <= z <= |trace| && q < |looks|
    && trace[p..q] == looks[p].ready && trace[q..z] == Third(looks[q], kernel, q)
  }

  ghost predicate Rounds(looks: seq<Look>, trace: seq<Coroutine>, kernel: (nat, set<int>) -> seq<Event>, cuts: seq<nat>) {
    |cuts| > 0 && forall j :: 0 <= j < |cuts| - 1 ==> Round(looks, trace, kernel, cuts[j], cuts[j + 1])
  }

  /** The last resume was one of the round that began at `p`. */
  ghost predicate BrokenOff(looks: seq<Look>, trace: seq<Coroutine>, kernel: (nat, set<int>) -> seq<Event>, p: nat) {
    && p < |trace| && p < |looks| && !looks[p].Done()
    && var q := p + |looks[p].ready|;
    if |trace| <= q then trace[p..] <= looks[p].ready
    else q < |looks| && trace[p..q] == looks[p].ready && trace[q..] <= Third(looks[q], kernel, q)
  }

  /** Entry `i` of a batch is worked off in its turn from the end, by whoever waits for its descriptor. */
  lemma {:induction false} WaitersAt(batch: seq<Event>, w: map<int, Coroutine>)
    requires forall i :: 0 <= i < |batch| ==> batch[i].fd in w
    ensures |Waiters(batch, w)| == |batch|
    ensures forall i :: 0 <= i < |batch| ==> Waiters(batch, w)[|batch| - 1 - i] == w[batch[i].fd]
  {
    if batch != [] {
      var n, front := |batch| - 1, batch[..|batch| - 1];
      WaitersAt(front, w);
      var all := Waiters(batch, w);
      assert all == [w[batch[n].fd]] + Waiters(front, w);
      hide Waiters;
      forall i | 0 <= i < |batch| ensures all[n - i] == w[batch[i].fd] {
        if i < n {
          assert all[n - i] == Waiters(front, w)[|front| - 1 - i] && front[i] == batch[i];
        }
      }
    }
  }

  /** In a round whose queue runs empty, each coroutine whose descriptor the kernel reports is resumed. */
  lemma ReportedRuns(looks: seq<Look>, trace: seq<Coroutine>, kernel: (nat, set<int>) -> seq<Event>, p: nat, z: nat, i: nat)
    requires Round(looks, trace, kernel, p, z)
    requires var q := p + |looks[p].ready|; var m := looks[q]; var batch := kernel(q, m.waiting.Keys);
      m.ready == [] && Reported(batch, m.waiting.Keys) && i < |batch|
    ensures var q := p + |looks[p].ready|; var m := looks[q]; var batch := kernel(q, m.waiting.Keys);
      z == q + |batch| && trace[z - 1 - i] == m.waiting[batch[i].fd]
  {
    var q := p + |looks[p].ready|;
    var m := looks[q];
    var batch := kernel(q, m.waiting.Keys);
    WaitersAt(batch, m.waiting);
    assert trace[q..z] == Waiters(batch, m.waiting);
    assert trace[q..z][|batch| - 1 - i] == m.waiting[batch[i].fd];
  }

  lemma {:induction false} StaysQueued(looks: seq<Look>, trace: seq<Coroutine>, body: nat -> Burst,
                                     i: nat, j: nat, c: Coroutine)
    requires Turns(looks, trace, body, i) && i <= j < |looks| && j <= |trace| && c in looks[i].ready
    requires forall k :: i <= k < j ==> trace[k] != c
    ensures c in looks[j].ready
    decreases j - i
  {
    if i < j {
      assert looks[i].Turn(trace[i], body(i), looks[i + 1]);
      TurnAdds(looks[i], trace[i], body(i), looks[i + 1]);
      assert c in looks[i].Without(trace[i]).ready;
      StaysQueued(looks, trace, body, i + 1, j, c);
    }
  }

  /** Whoever is in the queue during a round is resumed before the next round ends, whatever the others do. */
  lemma NobodyStarves(looks: seq<Look>, trace: seq<Coroutine>, body: nat -> Burst, kernel: (nat, set<int>) -> seq<Event>,
                      p: nat, z: nat, y: nat, i: nat, c: Coroutine)
    requires Turns(looks, trace, body, p) && Round(looks, trace, kernel, p, z) && Round(looks, trace, kernel, z, y)
    requires p <= i <= z && c in looks[i].ready
    ensures exists k :: i <= k < y && trace[k] == c
  {
    if forall k :: i <= k < z ==> trace[k] != c {
      StaysQueued(looks, trace, body, i, z, c);
      var n :| 0 <= n < |looks[z].ready| && looks[z].ready[n] == c;
      assert trace[z..z + |looks[z].ready|][n] == c;
      assert trace[z + n] == c;
    } else {
      var k :| i <= k < z && trace[k] == c;
    }
  }

  /** A burst creates as many coroutines as it says; they and a sleeper are queued, the poller waits, who exits is freed. */
  lemma TurnLeaves(a: Look, c: Coroutine, b: Burst, z: Look)
    requires a.Turn(c, b, z)
    ensures |z.made| == |a.made| + b.spawn && a.made <= z.made
    ensures forall k :: k in z.made && k !in a.made ==> k in z.ready
    ensures match b.last
      case Poll(fd, write) => fd in z.waiting && z.waiting[fd] == c
      case Sleep => z.ready != [] && z.ready[|z.ready| - 1] == c
      case Exit => z.freed != [] && z.freed[|z.freed| - 1] == c
  {
    var out := a.Without(c);
    assert out.made == a.made;
    hide Look.Without, Look.Next, Look.Stuck;
    PlaysMakes(out, c, b, z);
  }

  lemma PlaysMakes(out: Look, c: Coroutine, b: Burst, z: Look)
    requires out.Plays(c, b, z)
    ensures |z.made| == |out.made| + b.spawn && out.made <= z.made
    ensures forall k :: k in z.made && k !in out.made ==> k in z.ready
  {
    var kids := z.ready[|out.ready|..|out.ready| + b.spawn];
    MembersCount(kids);
    assert forall k :: k in kids ==> k in z.ready;
    assert z.made == out.made + Members(kids) && out.made !! Members(kids);
  }

  lemma {:induction false} MembersCount(s: seq<Coroutine>)
    requires Distinct(s)
    ensures |Members(s)| == |s|
  {
    if s != [] {
      var n := |s| - 1;
      MembersCount(s[..n]);
      assert s == s[..n] + [s[n]];
      assert Members(s) == Members(s[..n]) + {s[n]};
    }
  }

  /** A coroutine created during a round, or that yields in it by a sleep of no time, is resumed after that and before
      the next round ends. */
  lemma JoinedRunsSoon(looks: seq<Look>, trace: seq<Coroutine>, body: nat -> Burst, kernel: (nat, set<int>) -> seq<Event>,
                       p: nat, z: nat, y: nat, i: nat, c: Coroutine)
    requires Turns(looks, trace, body, p) && Round(looks, trace, kernel, p, z) && Round(looks, trace, kernel, z, y)
    requires p <= i < z
    requires (c in looks[i + 1].made && c !in looks[i].made) || (c == trace[i] && body(i).last.Sleep?)
    ensures exists k :: i < k < y && trace[k] == c
  {
    hide Look.Turn, Third, Look.Done;
    assert looks[i].Turn(trace[i], body(i), looks[i + 1]);
    TurnLeaves(looks[i], trace[i], body(i), looks[i + 1]);
    NobodyStarves(looks, trace, body, kernel, p, z, y, i + 1, c);
    var k :| i + 1 <= k < y && trace[k] == c;
  }

  /** Whoever waits for a descriptor goes on waiting for it until it is resumed. */
  lemma {:induction false} StaysWaiting(looks: seq<Look>, trace: seq<Coroutine>, body: nat -> Burst, i: nat, j: nat, f: int)
    requires Turns(looks, trace, body, i) && i <= j < |looks| && j <= |trace| && f in looks[i].waiting
    requires forall k :: i <= k < j ==> trace[k] != looks[i].waiting[f]
    ensures f in looks[j].waiting && looks[j].waiting[f] == looks[i].waiting[f]
    decreases j - i
  {
    if i < j {
      assert looks[i].Turn(trace[i], body(i), looks[i + 1]);
      TurnAdds(looks[i], trace[i], body(i), looks[i + 1]);
      StaysWaiting(looks, trace, body, i + 1, j, f);
    }
  }

  /** Sound, and `c` is out. */
  ghost predicate SoundWithout(a: Look, c: Coroutine) {
    a.Sound() && c in a.made && c !in a.ready && c !in a.freed && forall f :: f in a.waiting ==> a.waiting[f] != c
  }

  lemma OutSound(a: Look, c: Coroutine)
    requires a.Sound() && a.Next(c)
    ensures SoundWithout(a.Without(c), c)
  {
    var out := a.Without(c);
    assert forall x :: x in out.ready ==> x in a.ready;
    assert forall f :: f in out.waiting ==> f in a.waiting && out.waiting[f] == a.waiting[f];
  }

  lemma KidsSound(out: Look, c: Coroutine, kids: seq<Coroutine>)
    requires SoundWithout(out, c) && Distinct(kids) && forall k :: k in kids ==> k !in out.made
    ensures SoundWithout(out.(ready := out.ready + kids, made := out.made + Members(kids)), c)
  {
    assert forall x :: x in out.ready ==> x !in kids;
    assert forall f :: f in out.waiting ==> out.waiting[f] !in kids;
    DistinctParts(out.ready, kids);
  }

  lemma LastSound(a: Look, c: Coroutine, last: Yield)
    requires SoundWithout(a, c)
    ensures match last
      case Poll(fd, write) => fd !in a.waiting ==> a.(waiting := a.waiting[fd := c]).Sound()
      case Sleep => a.(ready := a.ready + [c]).Sound()
      case Exit => a.(freed := a.freed + [c]).Sound()
  {
    DistinctParts(a.ready, [c]);
    DistinctParts(a.freed, [c]);
  }

  lemma DistinctParts(s: seq<Coroutine>, t: seq<Coroutine>)
    requires Distinct(s) && Distinct(t) && forall x :: x in t ==> x !in s
    ensures Distinct(s + t)
  {
    forall i, j | 0 <= i < j < |s + t| ensures (s + t)[i] != (s + t)[j] {
      if i < |s| <= j {
        assert (s + t)[j] in t;
      }
    }
  }

  lemma TurnSound(a: Look, c: Coroutine, b: Burst, z: Look)
    requires a.Sound() && a.Turn(c, b, z)
    ensures z.Sound()
  {
    OutSound(a, c);
    var out := a.Without(c);
    var kids := z.ready[|out.ready|..|out.ready| + b.spawn];
    var grown := out.(ready := out.ready + kids, made := out.made + Members(kids));
    KidsSound(out, c, kids);
    LastSound(grown, c, b.last);
    assert z == match b.last
      case Poll(fd, write) => grown.(waiting := grown.waiting[fd := c])
      case Sleep => grown.(ready := grown.ready + [c])
      case Exit => grown.(freed := grown.freed + [c]);
  }

  /** From a sound beginning on, every resume finds the scheduler sound. */
  lemma {:induction false} AlwaysSound(looks: seq<Look>, trace: seq<Coroutine>, body: nat -> Burst, i: nat, j: nat)
    requires Turns(looks, trace, body, i) && i <= j < |looks| && j <= |trace| && looks[i].Sound()
    ensures looks[j].Sound() && looks[i].freed <= looks[j].freed && looks[i].made <= looks[j].made
    decreases j - i
  {
    if i < j {
      TurnSound(looks[i], trace[i], body(i), looks[i + 1]);
      TurnAdds(looks[i], trace[i], body(i), looks[i + 1]);
      AlwaysSound(looks, trace, body, i + 1, j);
    }
  }

  lemma NotFreed(a: Look, c: Coroutine, b: Burst, z: Look)
    requires a.Sound() && a.Turn(c, b, z)
    ensures c !in a.freed
  {
    OutSound(a, c);
  }

  /** A coroutine that exited is freed by that resume and never resumed again. */
  lemma ExitIsFinal(looks: seq<Look>, trace: seq<Coroutine>, body: nat -> Burst, i: nat, j: nat)
    requires Turns(looks, trace, body, i) && i < j < |trace| && j + 1 < |looks| && looks[i].Sound()
    requires body(i).last.Exit?
    ensures trace[i] in looks[i + 1].freed && trace[j] != trace[i]
  {
    hide Look.Turn, Look.Sound;
    AlwaysSound(looks, trace, body, i, i + 1);
    AlwaysSound(looks, trace, body, i + 1, j);
    TurnLeaves(looks[i], trace[i], body(i), looks[i + 1]);
    NotFreed(looks[j], trace[j], body(j), looks[j + 1]);
  }

  lemma Played(a: Look, co: Coroutine, b: Burst, kids: seq<Coroutine>, z: Look)
    requires |kids| == b.spawn && Distinct(kids) && forall k :: k in kids ==> k !in a.made
    requires z.ready == a.Without(co).ready + kids + (if b.last.Sleep? then [co] else [])
    requires z.made == a.made + Members(kids)
    requires z.waiting == if b.last.Poll? then a.Without(co).waiting[b.last.fd := co] else a.Without(co).waiting
    requires z.freed == if b.last.Exit? then a.freed + [co] else a.freed
    ensures a.Without(co).Plays(co, b, z)
  {
    var out := a.Without(co);
    assert z.ready[|out.ready|..|out.ready| + b.spawn] == kids;
  }

  lemma StuckIf(a: Look, co: Coroutine, b: Burst)
    ensures a.Stuck(co, b) <==> b.last.Poll? && b.last.fd in a.Without(co).waiting
  {
  }

  lemma SameTurn(a: Look, a1: Look, co: Coroutine, b: Burst, z: Look)
    requires a.Without(co) == a1.Without(co) && a.Next(co)
    ensures a.Stuck(co, b) <==> a1.Stuck(co, b)
    ensures !a.Stuck(co, b) && a1.Without(co).Plays(co, b, z) ==> a.Turn(co, b, z)
  {
    hide Look.Without, Look.Plays, Look.Next;
  }

  lemma TurnAdds(a: Look, co: Coroutine, b: Burst, z: Look)
    requires a.Turn(co, b, z)
    ensures a.Without(co).ready <= z.ready && a.made <= z.made && a.freed <= z.freed
    ensures forall f :: f in a.waiting && a.waiting[f] != co ==> f in z.waiting && z.waiting[f] == a.waiting[f]
  {
  }

  lemma NoneWent(trace: seq<Coroutine>, looks: seq<Look>, body: nat -> Burst)
    requires |looks| == |trace| + 1
    ensures Went(trace, looks, trace, looks, body)
  {
  }

  lemma Gone(t0: seq<Coroutine>, l0: seq<Look>, trace: seq<Coroutine>, looks: seq<Look>, body: nat -> Burst,
             co: Coroutine, z: Look, ok: bool)
    requires Went(t0, l0, trace, looks, body) && |looks| == |trace| + 1
    requires if ok then looks[|trace|].Turn(co, body(|trace|), z) else looks[|trace|].Stuck(co, body(|trace|))
    ensures Went(t0, l0, trace + [co], if ok then looks + [z] else looks, body)
    ensures !ok ==> Stops(looks, trace + [co], body)
  {
    hide Look.Turn, Look.Stuck;
  }

  lemma WentOn(t0: seq<Coroutine>, l0: seq<Look>, t: seq<Coroutine>, l: seq<Look>,
               trace: seq<Coroutine>, looks: seq<Look>, body: nat -> Burst)
    requires Went(t0, l0, t, l, body) && Went(t, l, trace, looks, body) && |l| == |t| + 1
    ensures Went(t0, l0, trace, looks, body)
  {
    hide Look.Turn;
    forall i: nat | |t0| <= i < |trace| && i + 1 < |looks| ensures looks[i].Turn(trace[i], body(i), looks[i + 1]) {
      if i < |t| {
        assert l[i].Turn(t[i], body(i), l[i + 1]);
      }
    }
  }

  lemma NoRounds(looks: seq<Look>, trace: seq<Coroutine>, kernel: (nat, set<int>) -> seq<Event>)
    ensures Rounds(looks, trace, kernel, [|trace|])
  {
  }

  lemma RoundsOn(t: seq<Coroutine>, l: seq<Look>, trace: seq<Coroutine>, looks: seq<Look>,
                 kernel: (nat, set<int>) -> seq<Event>, cuts: seq<nat>)
    requires Rounds(l, t, kernel, cuts) && t <= trace && l <= looks
    ensures Rounds(looks, trace, kernel, cuts)
    ensures cuts[|cuts| - 1] == |t| && Round(looks, trace, kernel, |t|, |trace|) ==>
              Rounds(looks, trace, kernel, cuts + [|trace|])
  {
    hide Round;
    forall j | 0 <= j < |cuts| - 1 ensures Round(looks, trace, kernel, cuts[j], cuts[j + 1]) {
      RoundStays(t, l, trace, looks, kernel, cuts[j], cuts[j + 1]);
    }
  }

  lemma RoundStays(t: seq<Coroutine>, l: seq<Look>, trace: seq<Coroutine>, looks: seq<Look>,
                   kernel: (nat, set<int>) -> seq<Event>, p: nat, z: nat)
    requires Round(l, t, kernel, p, z) && t <= trace && l <= looks
    ensures Round(looks, trace, kernel, p, z)
  {
    hide Third, Look.Done;
    var q := p + |l[p].ready|;
    assert trace[p..q] == t[p..q] && trace[q..z] == t[q..z];
    assert looks[p] == l[p] && looks[q] == l[q];
  }

  lemma RoundMade(t0: seq<Coroutine>, l0: seq<Look>, t1: seq<Coroutine>, l1: seq<Look>, trace: seq<Coroutine>, looks: seq<Look>,
                  kernel: (nat, set<int>) -> seq<Event>)
    requires |l0| == |t0| + 1 && |l1| == |t1| + 1 && l0 <= l1 <= looks && !l0[|t0|].Done()
    requires t1 == t0 + l0[|t0|].ready && trace == t1 + Third(l1[|t1|], kernel, |t1|)
    ensures Round(looks, trace, kernel, |t0|, |trace|)
  {
    hide Third, Look.Done;
    assert trace[|t0|..|t1|] == l0[|t0|].ready && trace[|t1|..] == Third(l1[|t1|], kernel, |t1|);
    assert looks[|t0|] == l0[|t0|] && looks[|t1|] == l1[|t1|];
  }

  lemma BrokenFirst(t0: seq<Coroutine>, l0: seq<Look>, trace: seq<Coroutine>, looks: seq<Look>,
                    kernel: (nat, set<int>) -> seq<Event>)
    requires |l0| == |t0| + 1 && l0 <= looks && !l0[|t0|].Done() && t0 < trace <= t0 + l0[|t0|].ready
    ensures BrokenOff(looks, trace, kernel, |t0|)
  {
  }

  lemma BrokenThird(t0: seq<Coroutine>, l0: seq<Look>, t1: seq<Coroutine>, l1: seq<Look>,
                    trace: seq<Coroutine>, looks: seq<Look>, kernel: (nat, set<int>) -> seq<Event>)
    requires |l0| == |t0| + 1 && |l1| == |t1| + 1 && l0 <= l1 <= looks && !l0[|t0|].Done()
    requires t1 == t0 + l0[|t0|].ready && t1 < trace <= t1 + Third(l1[|t1|], kernel, |t1|)
    ensures BrokenOff(looks, trace, kernel, |t0|)
  {
    assert trace[|t0|..|t1|] == l0[|t0|].ready;
  }

  lemma NextOf(q: seq<Coroutine>, n: nat, before: seq<Coroutine>)
    requires n < |q|
    ensures q[..n + 1] == q[..n] + [q[n]] && q[n..][0] == q[n] && q[n..][1..] == q[n + 1..]
    ensures before + q[..n] + [q[n]] == before + q[..n + 1]
  {
  }

  lemma NoWaiters(batch: seq<Event>, w: map<int, Coroutine>)
    ensures batch == [] ==> Waiters(batch, w) == []
  {
  }

  lemma AllAwaited(batch: seq<Event>, w: map<int, Coroutine>)
    requires Reported(batch, w.Keys)
    ensures Awaited(batch, w, w)
  {
  }

  lemma LastWaiter(batch: seq<Event>, now: map<int, Coroutine>, w: map<int, Coroutine>)
    requires Awaited(batch, now, w) && batch != []
    ensures Waiters(batch, w) == [now[batch[|batch| - 1].fd]] + Waiters(batch[..|batch| - 1], w)
  {
  }
}
