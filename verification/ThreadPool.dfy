/** The thread pool of Threadpool.c as a state machine.  Every action is what one thread does between two
    points where another thread may come in; a run is any sequence of enabled actions. */
module ThreadPool {

  type Worker = nat
  type Task = nat

  /** Where a worker is in nThreadPoolCallback. */
  datatype WorkerPc =
    | Top                 // about to lock the mutex
    | Check               // holds it, about to look at the task list
    | AboutToWait         // holds it, found no task and no terminate flag
    | Blocked             // inside pthread_cond_wait
    | Woken               // woken up, about to get the mutex back
    | Decide              // holds it, behind the inner loop, about to look at the terminate flag
    | Take                // holds it, about to unlink the first task
    | Took(task: Task)    // holds it, about to unlock
    | Running(task: Task)
    | Gone

  /** Where a caller of nThreadPoolPushTask is; between the two halves of LIST_INSERT it has read the list. */
  datatype PusherPc = Wants | Locked | Linked(seen: seq<Task>) | Inserted | Signalled | Returned

  /** Where nThreadPoolDestory is. */
  datatype DestroyerPc = Idle | Flagging(left: set<Worker>) | HasLock | Broadcasted | Unlocked | Cleared

  datatype Holder = Free | ByWorker(w: Worker) | ByPusher(t: Task) | ByDestroyer

  datatype State = State(
    workers: map<Worker, WorkerPc>,
    flagged: set<Worker>,
    pushers: map<Task, PusherPc>,  // one call for each task ever handed over
    destroyer: DestroyerPc,
    lock: Holder,
    tasks: seq<Task>,
    executed: seq<Task>,
    dropped: seq<Task>)

  datatype Action =
    | WorkerGo(w: Worker)       // the next step of a worker that is not blocked
    | Spurious(w: Worker)       // a wakeup nobody asked for
    | PushStart(t: Task)
    | PusherGo(t: Task, woken: set<Worker>)  // `woken`: the workers a signal wakes
    | DestroyStart
    | Flag(w: Worker)
    | DestroyerGo

  predicate Init(s: State) {
    && (forall w :: w in s.workers ==> s.workers[w] == Top)
    && s.flagged == {} && s.pushers == map[] && s.destroyer == Idle && s.lock == Free
    && s.tasks == s.executed == s.dropped == []
  }

  ghost function BlockedOnes(s: State): set<Worker> {
    set w | w in s.workers && s.workers[w] == Blocked
  }

  function WakeAll(m: map<Worker, WorkerPc>, ws: set<Worker>): map<Worker, WorkerPc> {
    map w | w in m :: if w in ws && m[w] == Blocked then Woken else m[w]
  }

  ghost predicate Enabled(s: State, a: Action) {
    match a
    case WorkerGo(w) =>
      && w in s.workers && !s.workers[w].Blocked? && !s.workers[w].Gone?
      && (s.workers[w].Top? || s.workers[w].Woken? ==> s.lock.Free?)
    case Spurious(w) => w in s.workers && s.workers[w].Blocked?
    case PushStart(t) => t !in s.pushers
    case PusherGo(t, woken) =>
      && t in s.pushers && !s.pushers[t].Returned? && (s.pushers[t].Wants? ==> s.lock.Free?)
      && woken <= BlockedOnes(s) && (s.pushers[t].Inserted? && BlockedOnes(s) != {} ==> woken != {})
    case DestroyStart => s.destroyer.Idle?
    case Flag(w) => s.destroyer.Flagging? && w in s.destroyer.left
    case DestroyerGo =>
      && !s.destroyer.Idle? && !s.destroyer.Cleared?
      && (s.destroyer.Flagging? ==> s.destroyer.left == {} && s.lock.Free?)
  }

  function GoWorker(s: State, w: Worker): State
    requires w in s.workers
  {
    var at := (pc: WorkerPc) => s.workers[w := pc];
    match s.workers[w]
    case Top => s.(workers := at(Check), lock := ByWorker(w))
    case Woken => s.(workers := at(Check), lock := ByWorker(w))
    case Check =>
      if s.tasks == [] && w !in s.flagged then s.(workers := at(AboutToWait)) else s.(workers := at(Decide))
    case AboutToWait => s.(workers := at(Blocked), lock := Free)
    case Decide =>
      if w in s.flagged then s.(workers := at(Gone), lock := Free) else s.(workers := at(Take))
    case Take => if s.tasks == [] then s else s.(workers := at(Took(s.tasks[0])), tasks := s.tasks[1..])
    case Took(t) => s.(workers := at(Running(t)), lock := Free)
    case Running(t) => s.(workers := at(Top), executed := s.executed + [t])
    case Blocked => s
    case Gone => s
  }

  function GoPusher(s: State, t: Task, woken: set<Worker>): State
    requires t in s.pushers
  {
    var at := (pc: PusherPc) => s.pushers[t := pc];
    match s.pushers[t]
    case Wants => s.(pushers := at(Locked), lock := ByPusher(t))
    case Locked => s.(pushers := at(Linked(s.tasks)))
    case Linked(seen) => s.(pushers := at(Inserted), tasks := [t] + seen)
    case Inserted => s.(pushers := at(Signalled), workers := WakeAll(s.workers, woken))
    case Signalled => s.(pushers := at(Returned), lock := Free)
    case Returned => s
  }

  function GoDestroyer(s: State): State {
    match s.destroyer
    case Flagging(_) => s.(destroyer := HasLock, lock := ByDestroyer)
    case HasLock => s.(destroyer := Broadcasted, workers := WakeAll(s.workers, s.workers.Keys))
    case Broadcasted => s.(destroyer := Unlocked, lock := Free)
    case Unlocked => s.(destroyer := Cleared, dropped := s.dropped + s.tasks, tasks := [])
    case _ => s
  }

  ghost function Do(s: State, a: Action): State
    requires Enabled(s, a)
  {
    match a
    case WorkerGo(w) => GoWorker(s, w)
    case Spurious(w) => s.(workers := s.workers[w := Woken])
    case PushStart(t) => s.(pushers := s.pushers[t := Wants])
    case PusherGo(t, woken) => GoPusher(s, t, woken)
    case DestroyStart => s.(destroyer := Flagging(s.workers.Keys))
    case Flag(w) => s.(flagged := s.flagged + {w}, destroyer := Flagging(s.destroyer.left - {w}))
    case DestroyerGo => GoDestroyer(s)
  }

  // ---------- the invariants ----------

  predicate HoldsLock(pc: WorkerPc) {
    pc.Check? || pc.AboutToWait? || pc.Decide? || pc.Take? || pc.Took?
  }

  predicate PusherHolds(pc: PusherPc) { pc.Locked? || pc.Linked? || pc.Inserted? || pc.Signalled? }

  /** The mutex: its holder is in a critical section, and nobody else is. */
  ghost predicate Exclusion(s: State) {
    && (forall w :: w in s.workers ==> (HoldsLock(s.workers[w]) <==> s.lock == ByWorker(w)))
    && (forall t :: t in s.pushers ==> (PusherHolds(s.pushers[t]) <==> s.lock == ByPusher(t)))
    && (s.destroyer.HasLock? || s.destroyer.Broadcasted? <==> s.lock.ByDestroyer?)
    && (s.lock.ByWorker? ==> s.lock.w in s.workers) && (s.lock.ByPusher? ==> s.lock.t in s.pushers)
  }

  predicate AfterBroadcast(d: DestroyerPc) { d.Broadcasted? || d.Unlocked? || d.Cleared? }

  /** Shutdown: the flags come before the lock, and after the broadcast nobody is blocked or about to be. */
  ghost predicate Shutdown(s: State) {
    && s.flagged <= s.workers.Keys && (s.destroyer.Idle? ==> s.flagged == {})
    && (s.destroyer.Flagging? ==> s.destroyer.left + s.flagged == s.workers.Keys)
    && (!s.destroyer.Idle? && !s.destroyer.Flagging? ==> s.flagged == s.workers.Keys)
    && (AfterBroadcast(s.destroyer) ==> forall w :: w in s.workers ==>
          var pc := s.workers[w]; !pc.Blocked? && !pc.AboutToWait? && !pc.Take? && !pc.Took?)
    && (forall w :: w in s.workers && s.workers[w].Gone? ==> w in s.flagged)
  }

  /** What a worker has seen under the lock is still so, and what a pusher has, until the list is cleared. */
  ghost predicate Seen(s: State) {
    && (forall w :: w in s.workers ==>
         && (s.workers[w].AboutToWait? ==> s.tasks == [])
         && (s.workers[w].Decide? && w !in s.flagged ==> s.tasks != [])
         && (s.workers[w].Take? ==> s.tasks != []))
    && (!s.destroyer.Cleared? ==> SeenByPushers(s)) && (forall t :: t in s.pushers && s.pushers[t].Linked? ==>
         s.pushers[t].seen == s.tasks || (s.tasks == [] && forall x :: x in s.pushers[t].seen ==> x in s.dropped))
  }

  ghost predicate SeenByPushers(s: State) {
    forall t :: t in s.pushers && s.pushers[t].Linked? ==> s.pushers[t].seen == s.tasks
  }

  predicate WillCheck(pc: WorkerPc) { pc.Top? || pc.Woken? || pc.Check? || pc.Decide? || pc.Take? }

  /** The workers that are awake and on their way to the task list. */
  ghost function Awake(s: State): set<Worker> {
    set w | w in s.workers && WillCheck(s.workers[w])
  }

  /** A task is in the list whose signal has not been sent yet. */
  ghost predicate SignalDue(s: State) {
    s.lock.ByPusher? && s.lock.t in s.pushers && s.pushers[s.lock.t].Inserted?
  }

  /** No task is stranded while workers sleep. */
  ghost predicate NoneStranded(s: State) {
    s.destroyer.Idle? && BlockedOnes(s) != {} ==> |s.tasks| <= |Awake(s)| + if SignalDue(s) then 1 else 0
  }

  predicate Has(pc: WorkerPc, t: Task) { (pc.Took? || pc.Running?) && pc.task == t }

  ghost predicate Distinct(s: seq<Task>) {
    forall i, j :: 0 <= i < j < |s| ==> s[i] != s[j]
  }

  predicate HandedOver(s: State, t: Task) {
    t in s.pushers && !s.pushers[t].Wants? && !s.pushers[t].Locked? && !s.pushers[t].Linked?
  }

  /** A task handed over is in exactly one place, once: queued, with one worker, executed, or dropped. */
  ghost predicate Conserved(s: State) {
    && Distinct(s.tasks) && Distinct(s.executed) && Distinct(s.dropped)
    && (forall t :: t in s.tasks || t in s.executed || t in s.dropped ==> HandedOver(s, t))
    && (forall w, t :: w in s.workers && Has(s.workers[w], t) ==> HandedOver(s, t))
    && (forall t :: t in s.tasks ==> t !in s.executed && t !in s.dropped)
    && (forall t :: t in s.executed ==> t !in s.dropped)
    && (forall w, t :: w in s.workers && Has(s.workers[w], t) ==> t !in s.tasks && t !in s.executed && t !in s.dropped)
    && (forall v, w, t :: v in s.workers && w in s.workers && Has(s.workers[v], t) && Has(s.workers[w], t) ==> v == w)
    && (forall t :: HandedOver(s, t) ==>
          t in s.tasks || t in s.executed || t in s.dropped || exists w :: w in s.workers && Has(s.workers[w], t))
  }

  ghost predicate Inv(s: State) {
    Exclusion(s) && Shutdown(s) && Seen(s) && NoneStranded(s)
  }

  /** Shutdown clears a list that is not empty, without the lock, in the middle of an insertion. */
  ghost predicate Torn(s: State, a: Action) {
    && a.DestroyerGo? && s.destroyer.Unlocked? && s.tasks != []
    && exists t :: t in s.pushers && s.pushers[t].Linked?
  }

  /** A pusher writes back a list that is not there any more. */
  ghost predicate Stale(s: State, a: Action) {
    a.PusherGo? && a.t in s.pushers && s.pushers[a.t].Linked? && s.pushers[a.t].seen != s.tasks
  }

  /** Every task handed over is queued, held, executed or dropped: one of them, and once. */
  ghost predicate EachOnce(s: State) {
    && Distinct(s.tasks) && Distinct(s.executed) && Distinct(s.dropped)
    && (forall v, w, t :: v in s.workers && w in s.workers && Has(s.workers[v], t) && Has(s.workers[w], t) ==> v == w)
    && (forall t :: HandedOver(s, t) ==> OnePlace(s, t))
  }

  ghost predicate OnePlace(s: State, t: Task) {
    var queued, done, gone := t in s.tasks, t in s.executed, t in s.dropped;
    var held := exists w :: w in s.workers && Has(s.workers[w], t);
    && (queued || done || gone || held)
    && !(queued && done) && !(queued && gone) && !(queued && held) && !(done && gone) && !(done && held) && !(gone && held)
  }

  lemma InitInv(s: State)
    requires Init(s)
    ensures Inv(s) && Conserved(s) && SeenByPushers(s)
  {
  }

  lemma ExclusionByWorker(s: State, w: Worker)
    requires Exclusion(s) && Enabled(s, WorkerGo(w))
    ensures Exclusion(Do(s, WorkerGo(w)))
  {
  }

  lemma ExclusionByPusher(s: State, t: Task, woken: set<Worker>)
    requires Exclusion(s) && Enabled(s, PusherGo(t, woken))
    ensures Exclusion(Do(s, PusherGo(t, woken)))
  {
  }

  lemma ExclusionKept(s: State, a: Action)
    requires Exclusion(s) && Enabled(s, a)
    ensures Exclusion(Do(s, a))
  {
    match a {
      case WorkerGo(w) => ExclusionByWorker(s, w);
      case PusherGo(t, woken) => ExclusionByPusher(s, t, woken);
      case _ =>
    }
  }

  lemma ShutdownByWorker(s: State, w: Worker)
    requires Exclusion(s) && Shutdown(s) && Enabled(s, WorkerGo(w))
    ensures Shutdown(Do(s, WorkerGo(w)))
  {
  }

  lemma ShutdownByPusher(s: State, t: Task, woken: set<Worker>)
    requires Exclusion(s) && Shutdown(s) && Enabled(s, PusherGo(t, woken))
    ensures Shutdown(Do(s, PusherGo(t, woken)))
  {
  }

  lemma ShutdownKept(s: State, a: Action)
    requires Exclusion(s) && Shutdown(s) && Enabled(s, a)
    ensures Shutdown(Do(s, a))
  {
    match a {
      case WorkerGo(w) => ShutdownByWorker(s, w);
      case PusherGo(t, woken) => ShutdownByPusher(s, t, woken);
      case _ =>
    }
  }

  lemma SeenByWorker(s: State, w: Worker)
    requires Exclusion(s) && Shutdown(s) && Seen(s) && Enabled(s, WorkerGo(w))
    ensures Seen(Do(s, WorkerGo(w)))
  {
  }

  lemma SeenByPusher(s: State, t: Task, woken: set<Worker>)
    requires Exclusion(s) && Shutdown(s) && Seen(s) && Enabled(s, PusherGo(t, woken))
    ensures Seen(Do(s, PusherGo(t, woken)))
  {
  }

  lemma SeenKept(s: State, a: Action)
    requires Exclusion(s) && Shutdown(s) && Seen(s) && Enabled(s, a)
    ensures Seen(Do(s, a))
  {
    match a {
      case WorkerGo(w) => SeenByWorker(s, w);
      case PusherGo(t, woken) => SeenByPusher(s, t, woken);
      case _ =>
    }
  }

  lemma OneMoved(s: State, s': State, w: Worker, pc: WorkerPc)
    requires w in s.workers && s'.workers == s.workers[w := pc]
    ensures Awake(s') == if WillCheck(pc) then Awake(s) + {w} else Awake(s) - {w}
    ensures BlockedOnes(s') == if pc.Blocked? then BlockedOnes(s) + {w} else BlockedOnes(s) - {w}
  {
  }

  lemma SomeWoken(s: State, s': State, woken: set<Worker>)
    requires woken <= BlockedOnes(s) && s'.workers == WakeAll(s.workers, woken)
    ensures Awake(s') == Awake(s) + woken && Awake(s) !! woken
    ensures BlockedOnes(s') == BlockedOnes(s) - woken
  {
  }

  lemma StrandedByWorker(s: State, w: Worker)
    requires Exclusion(s) && Shutdown(s) && Seen(s) && NoneStranded(s) && Enabled(s, WorkerGo(w))
    ensures NoneStranded(Do(s, WorkerGo(w)))
  {
    var s' := Do(s, WorkerGo(w));
    if s.destroyer.Idle? && s'.tasks != [] {
      WorkerMoves(s, w);
      OneMoved(s, s', w, s'.workers[w]);
      hide Awake, BlockedOnes, Enabled, GoWorker, Exclusion, Shutdown;
      if !WillCheck(s.workers[w]) || WillCheck(s'.workers[w]) {
        Larger(Awake(s), Awake(s'));
      }
    }
  }

  /** Before shutdown, a step of a worker that leaves tasks behind does not block it, and takes a task if
      it leads off the way to the list. */
  lemma WorkerMoves(s: State, w: Worker)
    requires Exclusion(s) && Shutdown(s) && Seen(s) && Enabled(s, WorkerGo(w))
    requires s.destroyer.Idle? && Do(s, WorkerGo(w)).tasks != []
    ensures var s' := Do(s, WorkerGo(w));
      && s'.destroyer == s.destroyer && (SignalDue(s') <==> SignalDue(s))
      && s'.workers == s.workers[w := s'.workers[w]] && !s'.workers[w].Blocked?
      && w !in BlockedOnes(s) && (w in Awake(s) <==> WillCheck(s.workers[w]))
      && |s'.tasks| == |s.tasks| - if WillCheck(s.workers[w]) && !WillCheck(s'.workers[w]) then 1 else 0
  {
  }

  lemma {:induction false} Larger(a: set<Worker>, b: set<Worker>)
    requires a <= b
    ensures |a| <= |b|
  {
    assert b == a + (b - a);
  }

  lemma StrandedByPusher(s: State, t: Task, woken: set<Worker>)
    requires Exclusion(s) && Seen(s) && NoneStranded(s) && Enabled(s, PusherGo(t, woken))
    ensures NoneStranded(Do(s, PusherGo(t, woken)))
  {
    var s' := Do(s, PusherGo(t, woken));
    if s.pushers[t].Inserted? {
      SomeWoken(s, s', woken);
    } else {
      assert Awake(s') == Awake(s) && BlockedOnes(s') == BlockedOnes(s);
    }
  }

  lemma NoneStrandedKept(s: State, a: Action)
    requires Exclusion(s) && Shutdown(s) && Seen(s) && NoneStranded(s) && Enabled(s, a)
    ensures NoneStranded(Do(s, a))
  {
    var s' := Do(s, a);
    match a {
      case WorkerGo(w) => StrandedByWorker(s, w);
      case Spurious(w) =>
        OneMoved(s, s', w, Woken);
        Larger(Awake(s), Awake(s'));
      case PusherGo(t, woken) => StrandedByPusher(s, t, woken);
      case PushStart(t) => assert Awake(s') == Awake(s) && BlockedOnes(s') == BlockedOnes(s);
      case _ =>
        assert !s'.destroyer.Idle?;
    }
  }

  // ---------- conservation ----------

  lemma ConservedByWorker(s: State, w: Worker)
    requires Exclusion(s) && Seen(s) && Conserved(s) && Enabled(s, WorkerGo(w))
    ensures Conserved(Do(s, WorkerGo(w)))
  {
    var s' := Do(s, WorkerGo(w));
    match s.workers[w] {
      case Take => TookOne(s, s', w);
      case Running(t) => RanOne(s, s', w, t);
      case _ => SamePlaces(s, s');
    }
  }

  /** Nothing that matters for the tasks has changed. */
  lemma SamePlaces(s: State, s': State)
    requires Conserved(s) && s'.tasks == s.tasks && s'.executed == s.executed && s'.dropped == s.dropped
    requires s'.workers.Keys == s.workers.Keys
    requires forall w, t :: w in s.workers ==> (Has(s'.workers[w], t) <==> Has(s.workers[w], t))
    requires forall t :: HandedOver(s', t) <==> HandedOver(s, t)
    ensures Conserved(s')
  {
  }

  lemma TookOne(s: State, s': State, w: Worker)
    requires Exclusion(s) && Conserved(s) && w in s.workers && s.workers[w].Take? && s.tasks != []
    requires s' == s.(workers := s.workers[w := Took(s.tasks[0])], tasks := s.tasks[1..])
    ensures Conserved(s')
  {
    var t := s.tasks[0];
    assert forall x :: x in s.tasks <==> x == t || x in s'.tasks;
    assert t !in s'.tasks && Distinct(s'.tasks);
    assert Has(s'.workers[w], t);
    assert forall v, x :: v in s.workers ==> (Has(s'.workers[v], x) <==> if v == w then x == t else Has(s.workers[v], x));
    assert forall x :: HandedOver(s', x) <==> HandedOver(s, x);
    hide Has, HandedOver, Distinct;
    forall x | HandedOver(s', x)
      ensures x in s'.tasks || x in s'.executed || x in s'.dropped || exists v :: v in s'.workers && Has(s'.workers[v], x) {
      if x in s.tasks || x in s.executed || x in s.dropped {
      } else {
        var v :| v in s.workers && Has(s.workers[v], x);
        assert v != w;
        assert Has(s'.workers[v], x);
      }
    }
  }

  lemma RanOne(s: State, s': State, w: Worker, t: Task)
    requires Conserved(s) && w in s.workers && s.workers[w] == Running(t)
    requires s' == s.(workers := s.workers[w := Top], executed := s.executed + [t])
    ensures Conserved(s')
  {
    assert Has(s.workers[w], t);
    assert forall x :: x in s'.executed <==> x in s.executed || x == t;
    assert t !in s.executed;
    assert Distinct(s'.executed) by {
      forall i, j | 0 <= i < j < |s'.executed| ensures s'.executed[i] != s'.executed[j] {
        assert s'.executed[i] in s.executed;
      }
    }
    assert forall v, x :: v in s.workers ==> (Has(s'.workers[v], x) <==> v != w && Has(s.workers[v], x));
    assert forall x :: Has(s.workers[w], x) ==> x == t;
    assert forall x :: HandedOver(s', x) <==> HandedOver(s, x);
    hide Has, HandedOver, Distinct;
    forall x | HandedOver(s', x)
      ensures x in s'.tasks || x in s'.executed || x in s'.dropped || exists v :: v in s'.workers && Has(s'.workers[v], x) {
      if x in s.tasks || x in s.executed || x in s.dropped || x == t {
      } else {
        var v :| v in s.workers && Has(s.workers[v], x);
        assert v != w;
        assert Has(s'.workers[v], x);
      }
    }
  }

  /** A push: its task gets into the list, in front. */
  lemma InsertedOne(s: State, s': State, t: Task)
    requires Exclusion(s) && Conserved(s) && t in s.pushers && s.pushers[t].Linked?
    requires s' == s.(pushers := s.pushers[t := Inserted], tasks := [t] + s.tasks)
    ensures Conserved(s')
  {
    assert !HandedOver(s, t);
    assert forall x :: x in s'.tasks <==> x in s.tasks || x == t;
    assert Distinct(s'.tasks);
    assert forall x :: HandedOver(s', x) <==> HandedOver(s, x) || x == t;
    hide HandedOver, Distinct, Has;
  }

  /** Clearing the list drops what is in it. */
  lemma DroppedAll(s: State, s': State)
    requires Conserved(s) && s'.dropped == s.dropped + s.tasks && s'.tasks == []
    requires s'.executed == s.executed && s'.workers == s.workers && s'.pushers == s.pushers
    ensures Conserved(s')
  {
    assert forall x :: x in s'.dropped <==> x in s.dropped || x in s.tasks;
    assert Distinct(s'.dropped) by {
      forall i, j | 0 <= i < j < |s'.dropped| ensures s'.dropped[i] != s'.dropped[j] {
        if i < |s.dropped| <= j { assert s'.dropped[j] in s.tasks && s'.dropped[i] in s.dropped; }
      }
    }
    assert forall x :: HandedOver(s', x) <==> HandedOver(s, x);
    hide HandedOver, Distinct, Has;
  }

  lemma ConservedByPusher(s: State, t: Task, woken: set<Worker>)
    requires Exclusion(s) && Conserved(s) && Enabled(s, PusherGo(t, woken)) && !Stale(s, PusherGo(t, woken))
    ensures Conserved(Do(s, PusherGo(t, woken)))
  {
    var s' := Do(s, PusherGo(t, woken));
    if s.pushers[t].Linked? {
      InsertedOne(s, s', t);
    } else {
      SamePlaces(s, s');
    }
  }

  /** A stale list brings dropped tasks back. */
  lemma StaleBreaks(s: State, a: Action)
    requires Exclusion(s) && Seen(s) && Conserved(s) && Enabled(s, a) && Stale(s, a)
    ensures !Conserved(Do(s, a)) && !EachOnce(Do(s, a))
  {
    var s', seen := Do(s, a), s.pushers[a.t].seen;
    assert seen[0] in seen && s'.tasks[1] == seen[0];
    assert seen[0] in s'.tasks && seen[0] in s'.dropped && HandedOver(s, seen[0]);
    assert HandedOver(s', seen[0]) && !OnePlace(s', seen[0]);
  }

  /** Every step keeps each task in its one place, but for an insertion that writes back a stale list. */
  lemma ConservedKept(s: State, a: Action)
    requires Exclusion(s) && Seen(s) && Conserved(s) && Enabled(s, a)
    ensures Conserved(Do(s, a)) <==> !Stale(s, a)
  {
    var s' := Do(s, a);
    if Stale(s, a) {
      StaleBreaks(s, a);
      return;
    }
    match a {
      case WorkerGo(w) => ConservedByWorker(s, w);
      case PusherGo(t, woken) => ConservedByPusher(s, t, woken);
      case DestroyerGo =>
        if s.destroyer.Unlocked? { DroppedAll(s, s'); } else { SamePlaces(s, s'); }
      case _ => SamePlaces(s, s');
    }
  }

  lemma ConservedOnce(s: State)
    requires Conserved(s)
    ensures EachOnce(s)
  {
  }

  /** How it comes to that: shutdown clears the list, without the lock, in the middle of an insertion; all its
      tasks are dropped then, and the insertion puts them back. */
  lemma TornBringsBack(s: State, t: Task)
    requires Exclusion(s) && Seen(s) && Enabled(s, DestroyerGo) && Torn(s, DestroyerGo)
    requires t in s.pushers && s.pushers[t].Linked?
    ensures var s1 := Do(s, DestroyerGo);
      && Enabled(s1, PusherGo(t, {})) && Stale(s1, PusherGo(t, {}))
      && var s2 := Do(s1, PusherGo(t, {}));
         s2.tasks == [t] + s.tasks && (forall x :: x in s.tasks ==> x in s2.tasks && x in s2.dropped)
  {
  }

  /** Only such a clear makes a list stale. */
  lemma SeenByPushersKept(s: State, a: Action)
    requires Exclusion(s) && Seen(s) && SeenByPushers(s) && Enabled(s, a) && !Torn(s, a)
    ensures SeenByPushers(Do(s, a))
  {
  }

  // ---------- all runs ----------

  lemma InvKept(s: State, a: Action)
    requires Inv(s) && Enabled(s, a)
    ensures Inv(Do(s, a))
  {
    ExclusionKept(s, a);
    ShutdownKept(s, a);
    SeenKept(s, a);
    NoneStrandedKept(s, a);
  }

  /** `run` are the states of an execution, `acts` the actions between them. */
  ghost predicate Execution(run: seq<State>, acts: seq<Action>) {
    && |run| == |acts| + 1 && Init(run[0])
    && forall i :: 0 <= i < |acts| ==> Enabled(run[i], acts[i]) && run[i + 1] == Do(run[i], acts[i])
  }

  lemma {:induction false} Always(run: seq<State>, acts: seq<Action>, i: nat)
    requires Execution(run, acts) && i < |run|
    ensures Inv(run[i])
  {
    if i == 0 {
      InitInv(run[0]);
    } else {
      Always(run, acts, i - 1);
      assert Enabled(run[i - 1], acts[i - 1]) && run[i] == Do(run[i - 1], acts[i - 1]);
      InvKept(run[i - 1], acts[i - 1]);
    }
  }

  /** Before shutdown, in every interleaving: while a worker sleeps, every queued task but the one whose signal
      is still to be sent has a worker of its own on its way to the list. */
  lemma NoTaskStranded(run: seq<State>, acts: seq<Action>, i: nat)
    requires Execution(run, acts) && i < |run| && run[i].destroyer.Idle?
    requires exists w :: w in run[i].workers && run[i].workers[w].Blocked?
    ensures |run[i].tasks| <= |Awake(run[i])| + if SignalDue(run[i]) then 1 else 0
  {
    Always(run, acts, i);
    var w :| w in run[i].workers && run[i].workers[w].Blocked?;
    assert w in BlockedOnes(run[i]);
  }

  /** Tasks are conserved up to a moment exactly if no stale list has been written back by then. */
  lemma {:induction false} ConservedAlways(run: seq<State>, acts: seq<Action>, i: nat)
    requires Execution(run, acts) && i < |run|
    ensures (forall k :: 0 <= k <= i ==> Conserved(run[k])) <==> forall k :: 0 <= k < i ==> !Stale(run[k], acts[k])
  {
    hide Conserved, Stale, Init, Enabled, Do, Exclusion, Shutdown, Seen, NoneStranded;
    if i == 0 {
      InitInv(run[0]);
    } else {
      ConservedAlways(run, acts, i - 1);
      Always(run, acts, i - 1);
      assert Enabled(run[i - 1], acts[i - 1]) && run[i] == Do(run[i - 1], acts[i - 1]);
      if Conserved(run[i - 1]) { ConservedKept(run[i - 1], acts[i - 1]); }
    }
  }

  /** A stale list comes from a clear in the middle of an insertion. */
  lemma {:induction false} StaleIsTorn(run: seq<State>, acts: seq<Action>, i: nat)
    requires Execution(run, acts) && i < |run| && forall k :: 0 <= k < i ==> !Torn(run[k], acts[k])
    ensures SeenByPushers(run[i]) && (i < |acts| ==> !Stale(run[i], acts[i]))
  {
    hide Init, Enabled, Do, Exclusion, Shutdown, Seen, NoneStranded, Torn;
    if i == 0 {
      InitInv(run[0]);
    } else {
      StaleIsTorn(run, acts, i - 1);
      Always(run, acts, i - 1);
      assert Enabled(run[i - 1], acts[i - 1]) && run[i] == Do(run[i - 1], acts[i - 1]);
      SeenByPushersKept(run[i - 1], acts[i - 1]);
    }
  }

  lemma Extend(run: seq<State>, acts: seq<Action>, a: Action) returns (run': seq<State>, acts': seq<Action>)
    requires Execution(run, acts) && Enabled(run[|acts|], a)
    ensures Execution(run', acts') && |run'| == |acts'| + 1 && run'[0] == run[0] && acts' == acts + [a] && run'[|acts'|] == Do(run[|acts|], a)
  {
    hide Enabled, Do, Init;
    run', acts' := run + [Do(run[|acts|], a)], acts + [a];
    forall i | 0 <= i < |acts'| ensures Enabled(run'[i], acts'[i]) && run'[i + 1] == Do(run'[i], acts'[i]) {
      if i < |acts| { assert acts'[i] == acts[i] && run'[i + 1] == run[i + 1]; }
    }
  }

  /** All workers are about to lock the mutex, and nobody is blocked. */
  ghost predicate AtTop(s: State, ws: set<Worker>) {
    s.workers == (map w | w in ws :: Top)
  }

  lemma NobodyWoken(s: State, ws: set<Worker>, woken: set<Worker>)
    requires AtTop(s, ws)
    ensures BlockedOnes(s) == {} && WakeAll(s.workers, woken) == s.workers
  {
  }

  lemma PushOne(run: seq<State>, acts: seq<Action>, t: Task) returns (run': seq<State>, acts': seq<Action>)
    requires Execution(run, acts) && t !in run[|acts|].pushers && run[|acts|].lock.Free?
    ensures Execution(run', acts') && |run'| == |acts'| + 1 && run'[0] == run[0]
    ensures var s := run[|acts|];
      run'[|acts'|] == s.(pushers := s.pushers[t := Linked(s.tasks)], lock := ByPusher(t))
  {
    assert |run| == |acts| + 1;
    hide Execution;
    run', acts' := Extend(run, acts, PushStart(t));
    run', acts' := Extend(run', acts', PusherGo(t, {}));
    run', acts' := Extend(run', acts', PusherGo(t, {}));
    assert Same(run[|acts|].pushers, t, Linked(run[|acts|].tasks));
  }

  /** Writing one entry several times is writing it once. */
  predicate Same(m: map<Task, PusherPc>, t: Task, pc: PusherPc) {
    m[t := Wants][t := Locked][t := pc] == m[t := pc]
  }

  lemma FinishPush(run: seq<State>, acts: seq<Action>, t: Task, ws: set<Worker>) returns (run': seq<State>, acts': seq<Action>)
    requires Execution(run, acts) && t in run[|acts|].pushers && run[|acts|].pushers[t].Linked?
    requires AtTop(run[|acts|], ws)
    ensures Execution(run', acts') && |run'| == |acts'| + 1 && run'[|acts'|].tasks == [t] + run[|acts|].pushers[t].seen
    ensures run'[|acts'|].lock.Free? && AtTop(run'[|acts'|], ws) && run'[|acts'|].destroyer == run[|acts|].destroyer
    ensures run'[|acts'|].pushers.Keys == run[|acts|].pushers.Keys && run'[0] == run[0]
  {
    assert |run| == |acts| + 1;
    NobodyWoken(run[|acts|], ws, {});
    hide Execution, AtTop, WakeAll;
    run', acts' := Extend(run, acts, PusherGo(t, {}));
    assert BlockedOnes(run'[|acts'|]) == {};
    run', acts' := Extend(run', acts', PusherGo(t, {}));
    run', acts' := Extend(run', acts', PusherGo(t, {}));
  }

  lemma {:induction false} FlagAll(run: seq<State>, acts: seq<Action>, ws: set<Worker>) returns (run': seq<State>, acts': seq<Action>)
    requires Execution(run, acts) && run[|acts|].destroyer.Flagging? && AtTop(run[|acts|], ws)
    ensures Execution(run', acts') && |run'| == |acts'| + 1 && run'[0] == run[0]
    ensures run'[|acts'|] == run[|acts|].(destroyer := Flagging({}), flagged := run[|acts|].flagged + run[|acts|].destroyer.left)
    decreases |run[|acts|].destroyer.left|
  {
    var s := run[|acts|];
    assert |run| == |acts| + 1;
    if s.destroyer.left == {} {
      run', acts' := run, acts;
      assert s.flagged + {} == s.flagged;
    } else {
      var w :| w in s.destroyer.left;
      hide Execution;
      run', acts' := Extend(run, acts, Flag(w));
      var left, flagged := s.destroyer.left - {w}, s.flagged + {w};
      assert flagged + left == s.flagged + s.destroyer.left;
      run', acts' := FlagAll(run', acts', ws);
    }
  }

  /** Shutdown of a pool whose workers have not started to work yet, up to its clear. */
  lemma ShutDown(ws: set<Worker>) returns (run: seq<State>, acts: seq<Action>)
    ensures Execution(run, acts) && |run| == |acts| + 1 && run[0].workers.Keys == ws && AtTop(run[|acts|], ws)
    ensures run[|acts|].destroyer.Unlocked? && run[|acts|].lock.Free? && run[|acts|].pushers == map[] && run[|acts|].tasks == []
  {
    var init := State(map w | w in ws :: Top, {}, map[], Idle, Free, [], [], []);
    run, acts := [init], [];
    assert Execution(run, acts);
    run, acts := Extend(run, acts, DestroyStart);
    run, acts := FlagAll(run, acts, ws);
    NobodyWoken(run[|acts|], ws, run[|acts|].workers.Keys);
    hide Execution, AtTop, WakeAll, BlockedOnes;
    run, acts := Extend(run, acts, DestroyerGo);
    run, acts := Extend(run, acts, DestroyerGo);
    run, acts := Extend(run, acts, DestroyerGo);
  }

  /** Such executions exist for every set of workers: the list is cleared between the two halves of a second
      insertion. */
  lemma TornHappens(ws: set<Worker>) returns (run: seq<State>, acts: seq<Action>)
    ensures Execution(run, acts) && |run| == |acts| + 1 && run[0].workers.Keys == ws && Torn(run[|acts|], DestroyerGo)
  {
    run, acts := ShutDown(ws);
    hide Execution;
    run, acts := PushOne(run, acts, 0);
    run, acts := FinishPush(run, acts, 0, ws);
    run, acts := PushOne(run, acts, 1);
    assert run[|acts|].pushers[1].Linked?;
  }

  /** Every task handed over is in exactly one of four places, once, up to a moment exactly if no stale list has
      been written back by then. */
  lemma {:induction false} ExactlyOnePlace(run: seq<State>, acts: seq<Action>, i: nat)
    requires Execution(run, acts) && i < |run|
    ensures (forall k :: 0 <= k <= i ==> EachOnce(run[k])) <==> forall k :: 0 <= k < i ==> !Stale(run[k], acts[k])
  {
    ConservedAlways(run, acts, i);
    hide Conserved, Stale, Init, Enabled, Do, Exclusion, Shutdown, Seen, NoneStranded, EachOnce;
    if forall k :: 0 <= k < i ==> !Stale(run[k], acts[k]) {
      forall k | 0 <= k <= i ensures EachOnce(run[k]) { ConservedOnce(run[k]); }
    } else {
      ExactlyOnePlace(run, acts, i - 1);
      if forall k :: 0 <= k < i - 1 ==> !Stale(run[k], acts[k]) {
        ConservedAlways(run, acts, i - 1);
        Always(run, acts, i - 1);
        assert Enabled(run[i - 1], acts[i - 1]) && run[i] == Do(run[i - 1], acts[i - 1]);
        StaleBreaks(run[i - 1], acts[i - 1]);
      }
    }
  }

  /** After the broadcast nobody is blocked, now or later; the list is only cleared when no worker is in it. */
  lemma NobodyBlockedAfterBroadcast(run: seq<State>, acts: seq<Action>, i: nat, j: nat)
    requires Execution(run, acts) && i <= j < |run| && AfterBroadcast(run[i].destroyer)
    ensures forall w :: w in run[j].workers ==>
      var pc := run[j].workers[w]; !pc.Blocked? && !pc.AboutToWait? && !pc.Take? && !pc.Took?
    ensures run[j].flagged == run[j].workers.Keys
  {
    StaysBroadcast(run, acts, i, j);
    Always(run, acts, j);
  }

  lemma {:induction false} StaysBroadcast(run: seq<State>, acts: seq<Action>, i: nat, j: nat)
    requires Execution(run, acts) && i <= j < |run| && AfterBroadcast(run[i].destroyer)
    ensures AfterBroadcast(run[j].destroyer)
    decreases j
  {
    if i < j {
      StaysBroadcast(run, acts, i, j - 1);
      assert Enabled(run[j - 1], acts[j - 1]) && run[j] == Do(run[j - 1], acts[j - 1]);
    }
  }

  /** How far a worker is from leaving once the broadcast is out. */
  function StepsLeft(pc: WorkerPc): nat {
    match pc
    case Running(_) => 4
    case Top => 3
    case Woken => 3
    case Check => 2
    case Decide => 1
    case _ => 0
  }

  /** After the broadcast every step of a worker brings it nearer to its end; others do not push it back ... */
  lemma Draining(s: State, a: Action)
    requires Inv(s) && Enabled(s, a) && AfterBroadcast(s.destroyer)
    ensures var s' := Do(s, a);
      && (a.WorkerGo? ==> StepsLeft(s'.workers[a.w]) < StepsLeft(s.workers[a.w]))
      && (forall w :: w in s.workers && a != WorkerGo(w) ==> s'.workers[w] == s.workers[w])
  {
  }

  /** ... and as long as one is left, a worker or the holder of the mutex can go on. */
  lemma NoDeadlock(s: State, w: Worker)
    requires Inv(s) && AfterBroadcast(s.destroyer) && w in s.workers && !s.workers[w].Gone?
    ensures Enabled(s, WorkerGo(w)) || (s.lock.ByWorker? && Enabled(s, WorkerGo(s.lock.w)))
         || (s.lock.ByPusher? && Enabled(s, PusherGo(s.lock.t, {}))) || (s.lock.ByDestroyer? && Enabled(s, DestroyerGo))
  {
    assert BlockedOnes(s) == {};
  }

  // ---------- what one thread does while no other comes in ----------

  /** The steps `acts`, one after another, are possible from `s` and lead to `z`. */
  ghost predicate Leads(s: State, acts: seq<Action>, z: State)
    decreases |acts|
  {
    if acts == [] then s == z else Enabled(s, acts[0]) && Leads(Do(s, acts[0]), acts[1..], z)
  }

  lemma LeadsOn(s: State, a: Action, y: State, acts: seq<Action>, z: State)
    requires Enabled(s, a) && Do(s, a) == y && Leads(y, acts, z)
    ensures Leads(s, [a] + acts, z)
  {
    assert ([a] + acts)[1..] == acts;
  }

  /** `s` with worker `w` somewhere else, and the mutex his if he needs it there. */
  function With(s: State, w: Worker, pc: WorkerPc): State {
    s.(workers := s.workers[w := pc], lock := if HoldsLock(pc) then ByWorker(w) else Free)
  }

  lemma OneStep(s: State, w: Worker, pc: WorkerPc, z: State)
    requires !pc.Blocked? && !pc.Gone? && GoWorker(With(s, w, pc), w) == z
    ensures Enabled(With(s, w, pc), WorkerGo(w)) && Do(With(s, w, pc), WorkerGo(w)) == z
  {
  }

  lemma Moves(s: State, w: Worker)
    ensures GoWorker(With(s, w, Top), w) == With(s, w, Check)
    ensures GoWorker(With(s, w, Check), w) == With(s, w, if s.tasks == [] && w !in s.flagged then AboutToWait else Decide)
    ensures GoWorker(With(s, w, AboutToWait), w) == With(s, w, Blocked)
    ensures GoWorker(With(s, w, Decide), w) == With(s, w, if w in s.flagged then Gone else Take)
  {
  }

  lemma MovesTask(s: State, w: Worker, t: Task, rest: seq<Task>)
    requires s.tasks == [t] + rest
    ensures GoWorker(With(s, w, Take), w) == With(s.(tasks := rest), w, Took(t))
  {
  }

  lemma TookMoves(s: State, w: Worker, t: Task)
    ensures GoWorker(With(s, w, Took(t)), w) == With(s, w, Running(t))
    ensures GoWorker(With(s, w, Running(t)), w) == With(s.(executed := s.executed + [t]), w, Top)
  {
  }

  lemma Nowhere(s: State, w: Worker)
    requires w in s.workers && s.workers[w].Top? && s.lock.Free?
    ensures With(s, w, Top) == s
  {
  }

  /** A worker that was not told to stop takes the first task of the list, runs it with the mutex free, and comes
      back for more. */
  lemma WorkerServes(s: State, w: Worker)
    requires w in s.workers && s.workers[w].Top? && s.lock.Free? && w !in s.flagged && s.tasks != []
    ensures var a, t, rest := WorkerGo(w), s.tasks[0], s.tasks[1..];
      var z := s.(workers := s.workers[w := Running(t)], tasks := rest);
      Leads(s, [a, a, a, a, a], z) && Leads(z, [a], s.(tasks := rest, executed := s.executed + [t]))
  {
    var a, t, rest := WorkerGo(w), s.tasks[0], s.tasks[1..];
    var s4, s6 := s.(tasks := rest), s.(tasks := rest, executed := s.executed + [t]);
    var z := s.(workers := s.workers[w := Running(t)], tasks := rest);
    assert z == With(s4, w, Running(t));
    MovesTask(s, w, t, rest);
    TookMoves(s4, w, t);
    Moves(s, w);
    Nowhere(s, w);
    Nowhere(s6, w);
    assert Leads(s6, [], s6) && Leads(z, [], z);
    hide Enabled, Do, GoWorker, With, Leads;
    OneStep(s4, w, Running(t), s6);
    LeadsOn(z, a, s6, [], s6);
    OneStep(s4, w, Took(t), z);
    LeadsOn(With(s4, w, Took(t)), a, z, [], z);
    OneStep(s, w, Take, With(s4, w, Took(t)));
    LeadsOn(With(s, w, Take), a, With(s4, w, Took(t)), [a], z);
    OneStep(s, w, Decide, With(s, w, Take));
    LeadsOn(With(s, w, Decide), a, With(s, w, Take), [a, a], z);
    OneStep(s, w, Check, With(s, w, Decide));
    LeadsOn(With(s, w, Check), a, With(s, w, Decide), [a, a, a], z);
    OneStep(s, w, Top, With(s, w, Check));
    LeadsOn(s, a, With(s, w, Check), [a, a, a, a], z);
  }

  /** With an empty list it goes to sleep; told to stop, it leaves.  Either way the mutex is free again. */
  lemma WorkerSleepsOrLeaves(s: State, w: Worker)
    requires w in s.workers && s.workers[w].Top? && s.lock.Free? && (w in s.flagged || s.tasks == [])
    ensures var a := WorkerGo(w);
      Leads(s, [a, a, a], s.(workers := s.workers[w := if w in s.flagged then Gone else Blocked]))
  {
    var a := WorkerGo(w);
    var last, between := if w in s.flagged then Gone else Blocked, if w in s.flagged then Decide else AboutToWait;
    var z := s.(workers := s.workers[w := last]);
    assert z == With(s, w, last);
    Moves(s, w);
    Nowhere(s, w);
    assert Leads(z, [], z);
    hide Enabled, Do, GoWorker, With, Leads;
    OneStep(s, w, between, z);
    LeadsOn(With(s, w, between), a, z, [], z);
    OneStep(s, w, Check, With(s, w, between));
    LeadsOn(With(s, w, Check), a, With(s, w, between), [a], z);
    OneStep(s, w, Top, With(s, w, Check));
    LeadsOn(s, a, With(s, w, Check), [a, a], z);
  }

  /** The same for the caller that hands over task `t`. */
  function Pushing(s: State, t: Task, pc: PusherPc): State {
    s.(pushers := s.pushers[t := pc], lock := if PusherHolds(pc) then ByPusher(t) else Free)
  }

  lemma OnePush(s: State, t: Task, pc: PusherPc, woken: set<Worker>, z: State)
    requires !pc.Returned? && GoPusher(Pushing(s, t, pc), t, woken) == z
    requires woken <= BlockedOnes(s) && (pc.Inserted? && BlockedOnes(s) != {} ==> woken != {})
    ensures Enabled(Pushing(s, t, pc), PusherGo(t, woken)) && Do(Pushing(s, t, pc), PusherGo(t, woken)) == z
  {
    assert BlockedOnes(Pushing(s, t, pc)) == BlockedOnes(s);
  }

  lemma PushMoves(s: State, t: Task)
    ensures GoPusher(Pushing(s, t, Wants), t, {}) == Pushing(s, t, Locked)
    ensures GoPusher(Pushing(s, t, Locked), t, {}) == Pushing(s, t, Linked(s.tasks))
    ensures GoPusher(Pushing(s, t, Linked(s.tasks)), t, {}) == Pushing(s.(tasks := [t] + s.tasks), t, Inserted)
    ensures GoPusher(Pushing(s, t, Signalled), t, {}) == Pushing(s, t, Returned)
  {
  }

  ghost function Woke(s: State, woken: set<Worker>): State {
    s.(workers := map w | w in s.workers :: if w in woken then Woken else s.workers[w])
  }

  lemma SignalMoves(s: State, t: Task, woken: set<Worker>)
    requires woken <= BlockedOnes(s)
    ensures GoPusher(Pushing(s, t, Inserted), t, woken) == Pushing(Woke(s, woken), t, Signalled)
  {
  }

  lemma SignalEnds(s: State, t: Task, woken: set<Worker>)
    requires woken <= BlockedOnes(s) && (BlockedOnes(s) != {} ==> woken != {})
    ensures Leads(Pushing(s, t, Inserted), [PusherGo(t, woken), PusherGo(t, {})], Pushing(Woke(s, woken), t, Returned))
  {
    var go, next := PusherGo(t, {}), Woke(s, woken);
    var z := Pushing(next, t, Returned);
    assert Leads(z, [], z);
    SignalMoves(s, t, woken);
    PushMoves(next, t);
    hide Enabled, Do, GoPusher, Pushing, Leads, BlockedOnes, Woke;
    OnePush(next, t, Signalled, {}, z);
    LeadsOn(Pushing(next, t, Signalled), go, z, [], z);
    OnePush(s, t, Inserted, woken, Pushing(next, t, Signalled));
    LeadsOn(Pushing(s, t, Inserted), PusherGo(t, woken), Pushing(next, t, Signalled), [go], z);
  }

  lemma PushBegins(s: State, t: Task)
    requires t !in s.pushers && s.lock.Free?
    ensures Enabled(s, PushStart(t)) && Do(s, PushStart(t)) == Pushing(s, t, Wants)
  {
  }

  /** A task handed over goes in front of the others; then one waiting worker at least is woken, if there is one. */
  lemma PushGoesFirst(s: State, t: Task, woken: set<Worker>)
    requires t !in s.pushers && s.lock.Free? && woken <= BlockedOnes(s) && (BlockedOnes(s) != {} ==> woken != {})
    ensures var go := PusherGo(t, {});
      Leads(s, [PushStart(t), go, go, go, PusherGo(t, woken), go],
            s.(pushers := s.pushers[t := Returned], tasks := [t] + s.tasks,
               workers := map w | w in s.workers :: if w in woken then Woken else s.workers[w]))
  {
    var go, s3 := PusherGo(t, {}), s.(tasks := [t] + s.tasks);
    var z := Pushing(Woke(s3, woken), t, Returned);
    assert z == s.(pushers := s.pushers[t := Returned], tasks := [t] + s.tasks,
                   workers := map w | w in s.workers :: if w in woken then Woken else s.workers[w]);
    assert BlockedOnes(s3) == BlockedOnes(s);
    hide *;
    SignalEnds(s3, t, woken);
    PushMoves(s, t);
    PushBegins(s, t);
    OnePush(s, t, Linked(s.tasks), {}, Pushing(s3, t, Inserted));
    LeadsOn(Pushing(s, t, Linked(s.tasks)), go, Pushing(s3, t, Inserted), [PusherGo(t, woken), go], z);
    OnePush(s, t, Locked, {}, Pushing(s, t, Linked(s.tasks)));
    LeadsOn(Pushing(s, t, Locked), go, Pushing(s, t, Linked(s.tasks)), [go, PusherGo(t, woken), go], z);
    OnePush(s, t, Wants, {}, Pushing(s, t, Locked));
    LeadsOn(Pushing(s, t, Wants), go, Pushing(s, t, Locked), [go, go, PusherGo(t, woken), go], z);
    LeadsOn(s, PushStart(t), Pushing(s, t, Wants), [go, go, go, PusherGo(t, woken), go], z);
  }
}
