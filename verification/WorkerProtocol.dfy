/** The worker threads of Worker_Loader over the blocking queue: every interleaving of producers
    (submit_worker), consumers (svc) and stops, as a machine over the program points of the threads. */
module WorkerProtocol {
  import opened Sequences
  import opened Wrappers
  import WaitList

  type Thread = nat
  type Worker = nat

  datatype Pc =
    // A client thread: between calls, inside put, inside stop.
    | Idle
    | PutLock(w: Worker) | PutBody(w: Worker) | PutUnlock | PutSignal
    | FlushLock | FlushBody | FlushBroadcast | FlushUnlock | Joining
    // A thread that runs svc: inside get, and with a worker in hand.
    | GetLock | GetTest(woken: bool) | Sleeping | Woken | GetUnlock(got: Option<Worker>)
    | Parsing(w: Worker) | Parsed(w: Worker, failed: bool) | Crashed(w: Worker) | Exited

  /** How parse_worker ends. Nothing in it or in svc catches what the JSON reader throws. */
  datatype Outcome = Succeeded | Failed | Threw

  datatype Event =
    | Submitted(w: Worker)
    | Dropped(w: Worker)
    | Took(t: Thread, w: Worker)
    | Retrieved(t: Thread, w: Worker)

  /** `list` also records every worker a getter has returned; `accepted` every worker linked in.
      `flushed` records that some flush has broadcast, and `terminated` that an exception nobody
      caught has ended the process. */
  datatype System = System(
    pc: map<Thread, Pc>,
    svc: set<Thread>,
    lock: Option<Thread>,
    list: WaitList.State<Worker>,
    accepted: seq<Worker>,
    log: seq<Event>,
    flushed: bool,
    terminated: bool)

  /** One thread's move. A signal wakes at least one sleeper when there is one, and sleepers may
      also wake for no reason. */
  datatype Step =
    | Submit(t: Thread, w: Worker) | Acquire(t: Thread) | Link(t: Thread) | Unlock(t: Thread)
    | Signal(t: Thread, wakes: set<Thread>)
    | Stop(t: Thread) | Kill(t: Thread) | Broadcast(t: Thread) | Join(t: Thread)
    | Test(t: Thread) | Parse(t: Thread, outcome: Outcome) | Retrieve(t: Thread)
    | Spurious(wakes: set<Thread>)

  // ---------- The machine ----------

  ghost function Sleepers(s: System): set<Thread> {
    set t | t in s.pc && s.pc[t].Sleeping?
  }

  ghost predicate At(s: System, t: Thread, p: Pc -> bool) {
    t in s.pc && p(s.pc[t])
  }

  /** The submissions of a worker that have neither been dropped nor retrieved. */
  function Balance(log: seq<Event>, w: Worker): int {
    if log == [] then 0 else Balance(log[..|log| - 1], w) + Effect(log[|log| - 1], w)
  }

  function Effect(e: Event, w: Worker): int {
    match e
    case Submitted(x) => if x == w then 1 else 0
    case Dropped(x) => if x == w then -1 else 0
    case Retrieved(_, x) => if x == w then -1 else 0
    case Took(_, _) => 0
  }

  /** No thread moves in a process that has ended. */
  ghost predicate Can(s: System, step: Step) {
    !s.terminated &&
    match step
    // A worker is submitted again only after the last submission has come to an end.
    case Submit(t, w) => t in s.pc && s.pc[t].Idle? && Balance(s.log, w) == 0
    case Acquire(t) =>
      t in s.pc && s.lock == None &&
      (s.pc[t].PutLock? || s.pc[t].FlushLock? || s.pc[t].GetLock? || s.pc[t].Woken?)
    case Link(t) => t in s.pc && s.pc[t].PutBody?
    case Unlock(t) => t in s.pc && (s.pc[t].PutUnlock? || s.pc[t].FlushUnlock? || s.pc[t].GetUnlock?)
    case Signal(t, wakes) =>
      t in s.pc && s.pc[t].PutSignal? && wakes <= Sleepers(s) && (Sleepers(s) != {} ==> wakes != {})
    case Stop(t) => t in s.pc && s.pc[t].Idle?
    case Kill(t) => t in s.pc && s.pc[t].FlushBody?
    case Broadcast(t) => t in s.pc && s.pc[t].FlushBroadcast?
    case Join(t) => t in s.pc && s.pc[t].Joining? && forall u | u in s.svc :: u in s.pc && s.pc[u].Exited?
    case Test(t) => t in s.pc && s.pc[t].GetTest?
    case Parse(t, _) => t in s.pc && s.pc[t].Parsing?
    case Retrieve(t) => t in s.pc && s.pc[t].Parsed?
    case Spurious(wakes) => wakes <= Sleepers(s)
  }

  ghost function Wake(pc: map<Thread, Pc>, wakes: set<Thread>): map<Thread, Pc> {
    map t | t in pc :: if t in wakes then Woken else pc[t]
  }

  ghost function Do(s: System, step: Step): System
    requires Can(s, step)
  {
    match step
    case Submit(t, w) => s.(pc := s.pc[t := PutLock(w)], log := s.log + [Submitted(w)])
    case Acquire(t) =>
      var next := match s.pc[t]
        case PutLock(w) => PutBody(w)
        case FlushLock => FlushBody
        case GetLock => GetTest(false)
        case _ => GetTest(true);
      s.(pc := s.pc[t := next], lock := Some(t))
    case Link(t) =>
      var w := s.pc[t].w;
      var s' := s.(pc := s.pc[t := PutUnlock], list := WaitList.Apply(s.list, WaitList.Put(w)));
      if s.list.alive then s'.(accepted := s.accepted + [w]) else s'.(log := s.log + [Dropped(w)])
    case Unlock(t) =>
      var next := match s.pc[t]
        case PutUnlock => PutSignal
        case FlushUnlock => Joining
        case GetUnlock(Some(w)) => Parsing(w)
        case _ => Exited;
      s.(pc := s.pc[t := next], lock := None)
    case Signal(t, wakes) => s.(pc := Wake(s.pc, wakes)[t := Idle])
    case Stop(t) => s.(pc := s.pc[t := FlushLock])
    case Kill(t) => s.(pc := s.pc[t := FlushBroadcast], list := WaitList.Apply(s.list, WaitList.Flush))
    case Broadcast(t) => s.(pc := Wake(s.pc, Sleepers(s))[t := FlushUnlock], flushed := true)
    case Join(t) => s.(pc := s.pc[t := Idle])
    case Test(t) =>
      if s.list.alive && s.list.items == [] then s.(pc := s.pc[t := Sleeping], lock := None)
      else if s.list.alive then
        var w := s.list.items[|s.list.items| - 1];
        var pc := s.pc[t := GetUnlock(Some(w))];
        s.(pc := pc, list := WaitList.Apply(s.list, WaitList.Get), log := s.log + [Took(t, w)])
      else s.(pc := s.pc[t := GetUnlock(None)])
    case Parse(t, Threw) => s.(pc := s.pc[t := Crashed(s.pc[t].w)], terminated := true)
    case Parse(t, outcome) => s.(pc := s.pc[t := Parsed(s.pc[t].w, outcome.Failed?)])
    // Each of the three branches behind parse_worker hands the worker back and gets the next.
    case Retrieve(t) => s.(pc := s.pc[t := GetLock], log := s.log + [Retrieved(t, s.pc[t].w)])
    case Spurious(wakes) => s.(pc := Wake(s.pc, wakes))
  }

  ghost predicate Init(s: System) {
    && s.svc <= s.pc.Keys
    && (forall t | t in s.pc :: s.pc[t] == if t in s.svc then GetLock else Idle)
    && s.lock == None && s.list == WaitList.State(true, [], []) && s.accepted == [] && s.log == []
    && !s.flushed && !s.terminated
  }

  ghost predicate Runs(s: System, steps: seq<Step>, t: System)
    decreases steps
  {
    if steps == [] then s == t else Can(s, steps[0]) && Runs(Do(s, steps[0]), steps[1..], t)
  }

  // ---------- The invariants ----------

  predicate InSvc(pc: Pc) {
    pc.GetLock? || pc.GetTest? || pc.Sleeping? || pc.Woken? || pc.GetUnlock? || pc.Parsing? || pc.Parsed?
        || pc.Crashed? || pc.Exited?
  }

  predicate Critical(pc: Pc) {
    pc.PutBody? || pc.PutUnlock? || pc.FlushBody? || pc.FlushBroadcast? || pc.FlushUnlock? || pc.GetTest?
        || pc.GetUnlock?
  }

  /** The threads keep to their roles, and exactly the owner of the mutex is in a critical section. */
  ghost predicate MutexHeld(s: System) {
    && (forall t | t in s.pc :: InSvc(s.pc[t]) <==> t in s.svc)
    && s.svc <= s.pc.Keys
    && (s.lock.Some? ==> s.lock.value in s.pc)
    && (forall t | t in s.pc :: Critical(s.pc[t]) <==> s.lock == Some(t))
  }

  /** Threads on their way to make up for a queued worker: a put that has not signalled yet, or a
      woken getter that has not run yet. */
  predicate Rousing(pc: Pc) {
    pc.PutUnlock? || pc.PutSignal? || pc.Woken? || (pc.GetTest? && pc.woken)
  }

  ghost function Pending(s: System): set<Thread> {
    set t | t in s.pc && Rousing(s.pc[t])
  }

  /** No wake-up is lost. */
  ghost predicate NoLostWakeup(s: System) {
    && (Sleepers(s) != {} && s.list.alive ==> |s.list.items| <= |Pending(s)|)
    && (Sleepers(s) != {} && !s.list.alive ==> exists t :: t in s.pc && s.pc[t].FlushBroadcast?)
  }

  /** The worker a thread has in hand, on its way into the queue or out of it. */
  function Carried(pc: Pc): Option<Worker> {
    match pc
    case PutLock(w) => Some(w)
    case PutBody(w) => Some(w)
    case GetUnlock(got) => got
    case Parsing(w) => Some(w)
    case Parsed(w, _) => Some(w)
    case Crashed(w) => Some(w)
    case _ => None
  }

  ghost predicate CarriedBySome(s: System, w: Worker) {
    exists t :: t in s.pc && Carried(s.pc[t]) == Some(w)
  }

  /** A worker is in at most one place, and in some place exactly while its submission is open. */
  ghost predicate Conserved(s: System) {
    && Distinct(s.list.items)
    && (forall t, u | t in s.pc && u in s.pc && t != u && Carried(s.pc[t]).Some? ::
        Carried(s.pc[t]) != Carried(s.pc[u]))
    && (forall t | t in s.pc && Carried(s.pc[t]).Some? :: Carried(s.pc[t]).value !in s.list.items)
    && (forall w: Worker :: Balance(s.log, w) == if w in s.list.items || CarriedBySome(s, w) then 1 else 0)
  }

  /** What a thread has done with the workers it took. */
  datatype Conduct = Ready | Holding(w: Worker) | Violation

  function ConductOf(log: seq<Event>, t: Thread): Conduct {
    if log == [] then Ready
    else Conducted(ConductOf(log[..|log| - 1], t), log[|log| - 1], t)
  }

  function Conducted(before: Conduct, e: Event, t: Thread): Conduct {
    match e
    case Took(u, w) => if u != t then before else if before == Ready then Holding(w) else Violation
    case Retrieved(u, w) => if u != t then before else if before == Holding(w) then Ready else Violation
    case _ => before
  }

  function ConductAt(pc: Pc): Conduct {
    match Carried(pc)
    case Some(w) => Holding(w)
    case None => Ready
  }

  /** Every worker a thread took was handed back exactly once before the thread took the next. */
  ghost predicate TakenAreRetrieved(s: System) {
    forall t | t in s.svc :: t in s.pc && ConductOf(s.log, t) == ConductAt(s.pc[t])
  }

  /** The getters have returned, from the oldest on, what the puts linked in. */
  ghost predicate InOrder(s: System) {
    s.list.returned + WaitList.Reversed(s.list.items) == s.accepted
  }

  /** Behind the point where a stop kills the list nobody finds it alive, and behind the first
      broadcast nobody sleeps, whatever other stops are doing. */
  ghost predicate FlushStands(s: System) {
    && (forall t | t in s.pc :: s.pc[t].FlushBroadcast? ==> !s.list.alive)
    && (forall t | t in s.pc :: s.pc[t].FlushUnlock? || s.pc[t].Joining? ==> s.flushed)
    && (s.flushed ==> !s.list.alive && Sleepers(s) == {})
  }

  ghost predicate CrashEnds(s: System) {
    forall t | t in s.pc :: s.pc[t].Crashed? ==> s.terminated
  }

  /** A get returns nothing, and a worker thread ends, only when the list is dead. */
  ghost predicate ExitsAreFinal(s: System) {
    forall t | t in s.pc :: s.pc[t].Exited? || s.pc[t] == GetUnlock(None) ==> !s.list.alive
  }

  ghost predicate Inv(s: System) {
    && MutexHeld(s) && NoLostWakeup(s) && Conserved(s) && TakenAreRetrieved(s) && InOrder(s)
    && FlushStands(s) && CrashEnds(s) && ExitsAreFinal(s)
  }

  // ---------- Every step keeps the invariants ----------

  /** Steps that move one thread, and steps that wake sleepers. */
  predicate Wakes(step: Step) {
    step.Signal? || step.Broadcast? || step.Spurious?
  }

  lemma MutexStep(s: System, step: Step)
    requires MutexHeld(s) && Can(s, step)
    ensures MutexHeld(Do(s, step))
  {
    hide WaitList.Apply, Balance;
    if Wakes(step) { MutexWakeStep(s, step); } else { MutexMoveStep(s, step); }
  }

  lemma MutexWakeStep(s: System, step: Step)
    requires MutexHeld(s) && Can(s, step) && Wakes(step)
    ensures MutexHeld(Do(s, step))
  {
    hide Balance, WaitList.Apply, MutexHeld;
    var s' := Do(s, step);
    match step {
      case Spurious(wakes) => MutexWoken(s, wakes);
      case Signal(t, wakes) =>
        MutexWoken(s, wakes);
        MutexOfOne(s.(pc := Wake(s.pc, wakes)), t);
        MutexMoved(s.(pc := Wake(s.pc, wakes)), s', t);
      case Broadcast(t) =>
        var m := s.(pc := Wake(s.pc, Sleepers(s)), flushed := true);
        MutexWoken(s, Sleepers(s));
        MutexOfOne(m, t) by { SameMutex(s.(pc := m.pc), m); }
        MutexMoved(m, s', t);
    }
  }

  /** Waking moves sleepers to where they still wait for the mutex. */
  lemma MutexWoken(s: System, wakes: set<Thread>)
    requires MutexHeld(s) && wakes <= Sleepers(s)
    ensures MutexHeld(s.(pc := Wake(s.pc, wakes)))
  {
  }

  lemma SameMutex(s: System, s': System)
    requires MutexHeld(s) && s'.pc == s.pc && s'.svc == s.svc && s'.lock == s.lock
    ensures MutexHeld(s')
  {
  }

  /** Only thread `t` moves. */
  ghost predicate OnlyMoves(s: System, s': System, t: Thread) {
    t in s.pc && s'.pc.Keys == s.pc.Keys && forall u | u in s.pc && u != t :: s'.pc[u] == s.pc[u]
  }

  lemma MoverMoves(s: System, step: Step)
    requires Can(s, step) && !Wakes(step)
    ensures OnlyMoves(s, Do(s, step), step.t) && Do(s, step).svc == s.svc
  {
    hide WaitList.Apply, Balance;
  }

  lemma MutexOfMover(s: System, step: Step)
    requires Can(s, step) && !Wakes(step) && MutexAt(s, step.t)
    ensures var s', t := Do(s, step), step.t;
            && MutexAt(s', t)
            && (s'.lock == s.lock || (s.lock == None && s'.lock == Some(t)) || (s.lock == Some(t) && s'.lock == None))
  {
    hide WaitList.Apply, Balance;
  }

  lemma MutexMoveStep(s: System, step: Step)
    requires MutexHeld(s) && Can(s, step) && !Wakes(step)
    ensures MutexHeld(Do(s, step))
  {
    hide WaitList.Apply, Balance, MutexHeld, MutexAt, Do;
    assert step.t in s.pc by { MoverMoves(s, step); }
    MutexOfOne(s, step.t);
    MoverMoves(s, step);
    MutexOfMover(s, step);
    MutexMoved(s, Do(s, step), step.t);
  }

  ghost predicate MutexAt(s: System, t: Thread) {
    t in s.pc && (InSvc(s.pc[t]) <==> t in s.svc) && (Critical(s.pc[t]) <==> s.lock == Some(t))
  }

  lemma MutexOfOne(s: System, t: Thread)
    requires MutexHeld(s) && t in s.pc
    ensures MutexAt(s, t)
  {
  }

  lemma MutexMoved(s: System, s': System, t: Thread)
    requires MutexHeld(s) && OnlyMoves(s, s', t) && s'.svc == s.svc && MutexAt(s', t)
    requires s'.lock == s.lock || (s.lock == None && s'.lock == Some(t)) || (s.lock == Some(t) && s'.lock == None)
    ensures MutexHeld(s')
  {
  }

  lemma InOrderStep(s: System, step: Step)
    requires InOrder(s) && Can(s, step)
    ensures InOrder(Do(s, step))
  {
    if step.Link? && s.list.alive {
      var items := [s.pc[step.t].w] + s.list.items;
      assert items[1..] == s.list.items;
    } else if step.Test? && s.list.alive && s.list.items != [] {
      WaitList.ReversedDropLast(s.list.items);
    }
  }

  lemma LogGrows(log: seq<Event>, e: Event)
    ensures forall t :: ConductOf(log + [e], t) == Conducted(ConductOf(log, t), e, t)
    ensures forall w: Worker :: Balance(log + [e], w) == Balance(log, w) + Effect(e, w)
  {
    assert (log + [e])[..|log|] == log;
  }

  /** What is carried, queued and logged stays. */
  ghost predicate KeepsBurden(s: System, s': System) {
    && s'.pc.Keys == s.pc.Keys && s'.svc == s.svc && s'.list.items == s.list.items && s'.log == s.log
    && forall t | t in s.pc :: Carried(s'.pc[t]) == Carried(s.pc[t])
  }

  predicate MovesBurden(step: Step) {
    step.Submit? || step.Link? || step.Test? || step.Retrieve?
  }

  lemma SameBurden(s: System, step: Step)
    requires Can(s, step) && !MovesBurden(step)
    ensures KeepsBurden(s, Do(s, step))
  {
    hide Balance, Can, Do, KeepsBurden;
    if Wakes(step) { BurdenOfWake(s, step); } else { BurdenOfMove(s, step); }
  }

  lemma BurdenOfWake(s: System, step: Step)
    requires Can(s, step) && Wakes(step)
    ensures KeepsBurden(s, Do(s, step))
  {
    hide Balance;
  }

  lemma BurdenOfMove(s: System, step: Step)
    requires Can(s, step) && !Wakes(step) && !MovesBurden(step)
    ensures KeepsBurden(s, Do(s, step))
  {
    hide Balance, Do, Can, Carried;
    MoverMoves(s, step);
    BurdenOfMover(s, step);
  }

  lemma BurdenOfMover(s: System, step: Step)
    requires Can(s, step) && !Wakes(step) && !MovesBurden(step)
    ensures var s', t := Do(s, step), step.t;
            && t in s.pc && t in s'.pc && Carried(s'.pc[t]) == Carried(s.pc[t])
            && s'.list.items == s.list.items && s'.log == s.log
  {
    hide Balance;
  }

  /** One event that concerns at most thread `t`. */
  lemma ConductMoved(s: System, s': System, t: Thread, e: Event)
    requires TakenAreRetrieved(s) && OnlyMoves(s, s', t) && s'.svc == s.svc && s'.log == s.log + [e]
    requires forall before: Conduct, u | u != t :: Conducted(before, e, u) == before
    requires t in s.svc ==> Conducted(ConductAt(s.pc[t]), e, t) == ConductAt(s'.pc[t])
    ensures TakenAreRetrieved(s')
  {
    hide ConductOf, Conducted, ConductAt;
    LogGrows(s.log, e);
    forall u | u in s'.svc ensures u in s'.pc && ConductOf(s'.log, u) == ConductAt(s'.pc[u]) {
      assert u in s.svc && ConductOf(s.log, u) == ConductAt(s.pc[u]);
    }
  }

  lemma ConductStays(s: System, s': System)
    requires TakenAreRetrieved(s) && KeepsBurden(s, s')
    ensures TakenAreRetrieved(s')
  {
    hide ConductOf;
  }

  /** A client's thread is not among the worker threads. */
  lemma ClientsMoved(s: System, s': System, t: Thread)
    requires TakenAreRetrieved(s) && OnlyMoves(s, s', t) && s'.svc == s.svc && s'.log == s.log && t !in s.svc
    ensures TakenAreRetrieved(s')
  {
    hide ConductOf, ConductAt;
    forall u | u in s'.svc ensures u in s'.pc && ConductOf(s'.log, u) == ConductAt(s'.pc[u]) {
      assert u in s.svc && ConductOf(s.log, u) == ConductAt(s.pc[u]);
    }
  }

  lemma ConductStep(s: System, step: Step)
    requires MutexHeld(s) && TakenAreRetrieved(s) && Can(s, step)
    ensures TakenAreRetrieved(Do(s, step))
  {
    hide Balance, MutexHeld, TakenAreRetrieved, Do, Can;
    match step {
      case Submit(t, w) => ConductOfSubmit(s, t, w);
      case Link(t) => ConductOfLink(s, t);
      case Test(t) => ConductOfTest(s, t);
      case Retrieve(t) => ConductOfRetrieve(s, t);
      case _ =>
        SameBurden(s, step);
        ConductStays(s, Do(s, step));
    }
  }

  lemma ConductOfSubmit(s: System, t: Thread, w: Worker)
    requires MutexHeld(s) && TakenAreRetrieved(s) && Can(s, Submit(t, w))
    ensures TakenAreRetrieved(Do(s, Submit(t, w)))
  {
    hide ConductOf, Balance, MutexHeld, TakenAreRetrieved, OnlyMoves;
    MoverMoves(s, Submit(t, w));
    MutexOfOne(s, t);
    ConductMoved(s, Do(s, Submit(t, w)), t, Submitted(w));
  }

  lemma ConductOfLink(s: System, t: Thread)
    requires MutexHeld(s) && TakenAreRetrieved(s) && Can(s, Link(t))
    ensures TakenAreRetrieved(Do(s, Link(t)))
  {
    hide ConductOf, Balance, MutexHeld, TakenAreRetrieved, OnlyMoves;
    var s' := Do(s, Link(t));
    MoverMoves(s, Link(t));
    MutexOfOne(s, t);
    if s.list.alive { ClientsMoved(s, s', t); } else { ConductMoved(s, s', t, Dropped(s.pc[t].w)); }
  }

  lemma ConductOfTest(s: System, t: Thread)
    requires TakenAreRetrieved(s) && Can(s, Test(t))
    ensures TakenAreRetrieved(Do(s, Test(t)))
  {
    hide ConductOf, Balance, TakenAreRetrieved, OnlyMoves, KeepsBurden;
    var s' := Do(s, Test(t));
    if s.list.alive && s.list.items != [] {
      MoverMoves(s, Test(t));
      ConductMoved(s, s', t, Took(t, s.list.items[|s.list.items| - 1]));
    } else {
      WaitingTakesNothing(s, t);
      ConductStays(s, s');
    }
  }

  lemma ConductOfRetrieve(s: System, t: Thread)
    requires TakenAreRetrieved(s) && Can(s, Retrieve(t))
    ensures TakenAreRetrieved(Do(s, Retrieve(t)))
  {
    hide ConductOf, Balance, TakenAreRetrieved, OnlyMoves;
    MoverMoves(s, Retrieve(t));
    ConductMoved(s, Do(s, Retrieve(t)), t, Retrieved(t, s.pc[t].w));
  }

  /** A test that finds the list empty or dead. */
  lemma WaitingTakesNothing(s: System, t: Thread)
    requires Can(s, Test(t)) && !(s.list.alive && s.list.items != [])
    ensures KeepsBurden(s, Do(s, Test(t)))
  {
    hide Balance;
  }

  // ---------- Conservation ----------

  lemma ConservedStep(s: System, step: Step)
    requires MutexHeld(s) && Conserved(s) && Can(s, step)
    ensures Conserved(Do(s, step))
  {
    hide Balance, Conserved, MutexHeld, Do, Can;
    match step {
      case Submit(t, w) => ConservedSubmit(s, t, w);
      case Link(t) => ConservedLink(s, t);
      case Test(t) => ConservedTest(s, t);
      case Retrieve(t) => ConservedRetrieve(s, t);
      case _ =>
        SameBurden(s, step);
        SamePlaces(s, Do(s, step));
    }
  }

  lemma ConservedSubmit(s: System, t: Thread, w: Worker)
    requires Conserved(s) && Can(s, Submit(t, w))
    ensures Conserved(Do(s, Submit(t, w)))
  {
    hide Balance, Conserved, OnlyMoves;
    MoverMoves(s, Submit(t, w));
    LogGrows(s.log, Submitted(w));
    WorkerEnters(s, Do(s, Submit(t, w)), t, w);
  }

  lemma ConservedLink(s: System, t: Thread)
    requires Conserved(s) && Can(s, Link(t))
    ensures Conserved(Do(s, Link(t)))
  {
    hide Balance, Conserved, OnlyMoves;
    var s', w := Do(s, Link(t)), s.pc[t].w;
    MoverMoves(s, Link(t));
    LogGrows(s.log, Dropped(w));
    if s.list.alive { WorkerQueued(s, s', t, w); } else { WorkerLeaves(s, s', t, w); }
  }

  lemma ConservedTest(s: System, t: Thread)
    requires Conserved(s) && Can(s, Test(t))
    ensures Conserved(Do(s, Test(t)))
  {
    hide Balance, Conserved, OnlyMoves;
    if s.list.alive && s.list.items != [] {
      var w := s.list.items[|s.list.items| - 1];
      MoverMoves(s, Test(t));
      LogGrows(s.log, Took(t, w));
      WorkerTaken(s, Do(s, Test(t)), t, w);
    } else {
      WaitingTakesNothing(s, t);
      SamePlaces(s, Do(s, Test(t)));
    }
  }

  lemma ConservedRetrieve(s: System, t: Thread)
    requires Conserved(s) && Can(s, Retrieve(t))
    ensures Conserved(Do(s, Retrieve(t)))
  {
    hide Balance, Conserved, OnlyMoves;
    MoverMoves(s, Retrieve(t));
    LogGrows(s.log, Retrieved(t, s.pc[t].w));
    WorkerLeaves(s, Do(s, Retrieve(t)), t, s.pc[t].w);
  }

  lemma SamePlaces(s: System, s': System)
    requires Conserved(s) && KeepsBurden(s, s')
    ensures Conserved(s')
  {
    hide Balance;
    forall w: Worker ensures CarriedBySome(s', w) == CarriedBySome(s, w) {
      if t :| t in s.pc && Carried(s.pc[t]) == Some(w) { assert Carried(s'.pc[t]) == Some(w); }
      if t :| t in s'.pc && Carried(s'.pc[t]) == Some(w) { assert Carried(s.pc[t]) == Some(w); }
    }
  }

  /** What only thread `t` changes: who carries what. */
  lemma Handed(s: System, s': System, t: Thread)
    requires OnlyMoves(s, s', t) && Conserved(s)
    ensures forall w: Worker :: CarriedBySome(s', w) <==>
              (CarriedBySome(s, w) && Carried(s.pc[t]) != Some(w)) || Carried(s'.pc[t]) == Some(w)
  {
    hide Balance;
    forall w: Worker
      ensures CarriedBySome(s', w) <==>
              (CarriedBySome(s, w) && Carried(s.pc[t]) != Some(w)) || Carried(s'.pc[t]) == Some(w)
    {
      if u :| u in s.pc && Carried(s.pc[u]) == Some(w) {
        if u != t { assert Carried(s'.pc[u]) == Some(w); }
      }
      if u :| u in s'.pc && Carried(s'.pc[u]) == Some(w) {
        if u != t { assert Carried(s.pc[u]) == Some(w); }
      }
      if Carried(s'.pc[t]) == Some(w) { assert t in s'.pc; }
    }
  }

  lemma WorkerEnters(s: System, s': System, t: Thread, w: Worker)
    requires Conserved(s) && OnlyMoves(s, s', t) && s'.list.items == s.list.items
    requires Carried(s.pc[t]) == None && Carried(s'.pc[t]) == Some(w) && Balance(s.log, w) == 0
    requires forall x: Worker :: Balance(s'.log, x) == Balance(s.log, x) + if x == w then 1 else 0
    ensures Conserved(s')
  {
    hide Balance;
    Handed(s, s', t);
    assert !CarriedBySome(s, w) && w !in s.list.items;
    forall u | u in s.pc && u != t ensures Carried(s'.pc[u]) != Some(w) {
      assert Carried(s.pc[u]) == Some(w) ==> CarriedBySome(s, w);
    }
  }

  lemma WorkerLeaves(s: System, s': System, t: Thread, w: Worker)
    requires Conserved(s) && OnlyMoves(s, s', t) && s'.list.items == s.list.items
    requires Carried(s.pc[t]) == Some(w) && Carried(s'.pc[t]) == None
    requires forall x: Worker :: Balance(s'.log, x) == Balance(s.log, x) - if x == w then 1 else 0
    ensures Conserved(s')
  {
    hide Balance;
    Handed(s, s', t);
    assert CarriedBySome(s, w);
  }

  lemma WorkerQueued(s: System, s': System, t: Thread, w: Worker)
    requires Conserved(s) && OnlyMoves(s, s', t) && s'.list.items == [w] + s.list.items && s'.log == s.log
    requires Carried(s.pc[t]) == Some(w) && Carried(s'.pc[t]) == None
    ensures Conserved(s')
  {
    hide Balance;
    Handed(s, s', t);
    assert CarriedBySome(s, w);
    forall u | u in s.pc && Carried(s'.pc[u]).Some? ensures Carried(s'.pc[u]).value !in s'.list.items {
      assert u != t && Carried(s.pc[u]) != Carried(s.pc[t]);
    }
  }

  lemma WorkerTaken(s: System, s': System, t: Thread, w: Worker)
    requires Conserved(s) && OnlyMoves(s, s', t) && s.list.items == s'.list.items + [w]
    requires Carried(s.pc[t]) == None && Carried(s'.pc[t]) == Some(w)
    requires forall x: Worker :: Balance(s'.log, x) == Balance(s.log, x)
    ensures Conserved(s')
  {
    hide Balance;
    Handed(s, s', t);
    var n := |s'.list.items|;
    assert forall i | 0 <= i < n :: s'.list.items[i] == s.list.items[i];
    assert w == s.list.items[n] && w !in s'.list.items;
    forall u | u in s.pc && u != t ensures Carried(s'.pc[u]) != Some(w) {
      assert w in s.list.items;
    }
    assert forall x | x in s.list.items :: x in s'.list.items || x == w;
  }

  // ---------- Wake-ups ----------

  lemma PendingOfMove(s: System, s': System, t: Thread)
    requires OnlyMoves(s, s', t)
    ensures Pending(s') == if Rousing(s'.pc[t]) then Pending(s) + {t} else Pending(s) - {t}
    ensures Sleepers(s') == if s'.pc[t].Sleeping? then Sleepers(s) + {t} else Sleepers(s) - {t}
  {
  }

  lemma PendingOfWake(s: System, pc: map<Thread, Pc>, wakes: set<Thread>)
    requires wakes <= Sleepers(s) && pc == Wake(s.pc, wakes)
    ensures var s' := s.(pc := pc);
            Pending(s') == Pending(s) + wakes && Sleepers(s') == Sleepers(s) - wakes && Pending(s) !! wakes
  {
  }

  lemma WakeupStep(s: System, step: Step)
    requires MutexHeld(s) && NoLostWakeup(s) && Can(s, step)
    ensures NoLostWakeup(Do(s, step))
  {
    hide Balance, MutexHeld, NoLostWakeup, Do;
    match step {
      case Signal(t, wakes) => SignalStep(s, t, wakes);
      case Broadcast(t) => BroadcastStep(s, t);
      case Spurious(wakes) => SpuriousStep(s, wakes);
      case Kill(t) => KillStep(s, t);
      case Link(t) => LinkStep(s, t);
      case Test(t) => TestStep(s, t);
      case _ => QuietStep(s, step);
    }
  }

  lemma KillStep(s: System, t: Thread)
    requires Can(s, Kill(t))
    ensures NoLostWakeup(Do(s, Kill(t)))
  {
    hide Balance, Pending, Sleepers;
    var s' := Do(s, Kill(t));
    assert t in s'.pc && s'.pc[t].FlushBroadcast?;
  }

  lemma LinkStep(s: System, t: Thread)
    requires NoLostWakeup(s) && Can(s, Link(t))
    ensures NoLostWakeup(Do(s, Link(t)))
  {
    hide Balance, Pending, Sleepers;
    var s' := Do(s, Link(t));
    PendingOfMove(s, s', t);
    PendingMember(s, t);
    BroadcasterStays(s, s', t);
  }

  lemma TestStep(s: System, t: Thread)
    requires NoLostWakeup(s) && Can(s, Test(t))
    ensures NoLostWakeup(Do(s, Test(t)))
  {
    hide Balance, Pending, Sleepers;
    var s' := Do(s, Test(t));
    PendingOfMove(s, s', t);
    PendingMember(s, t);
    BroadcasterStays(s, s', t);
  }

  lemma PendingMember(s: System, t: Thread)
    requires t in s.pc
    ensures t in Pending(s) <==> Rousing(s.pc[t])
    ensures t in Sleepers(s) <==> s.pc[t].Sleeping?
  {
  }

  /** A thread about to broadcast is not moved by another thread's step. */
  lemma BroadcasterStays(s: System, s': System, t: Thread)
    requires OnlyMoves(s, s', t) && !s.pc[t].FlushBroadcast?
    ensures (exists u :: u in s.pc && s.pc[u].FlushBroadcast?) ==> exists u :: u in s'.pc && s'.pc[u].FlushBroadcast?
  {
    if u :| u in s.pc && s.pc[u].FlushBroadcast? { assert s'.pc[u].FlushBroadcast?; }
  }

  lemma QuietStep(s: System, step: Step)
    requires NoLostWakeup(s) && Can(s, step) && !Wakes(step) && !step.Kill? && !step.Link? && !step.Test?
    ensures NoLostWakeup(Do(s, step))
  {
    hide Balance, Pending, Sleepers, NoLostWakeup;
    var s' := Do(s, step);
    var t := step.t;
    match step {
      case Submit(_, _) =>
      case Acquire(_) =>
      case Unlock(_) =>
      case Stop(_) =>
      case Join(_) =>
      case Parse(_, _) =>
      case Retrieve(_) =>
    }
    QuietMove(s, s', t);
  }

  lemma QuietMove(s: System, s': System, t: Thread)
    requires NoLostWakeup(s) && OnlyMoves(s, s', t) && s'.list == s.list && !s.pc[t].FlushBroadcast?
    requires Rousing(s'.pc[t]) == Rousing(s.pc[t]) && !s.pc[t].Sleeping? && !s'.pc[t].Sleeping?
    ensures NoLostWakeup(s')
  {
    hide Pending, Sleepers, Rousing;
    PendingMember(s, t);
    PendingOfMove(s, s', t);
    BroadcasterStays(s, s', t);
    assert Pending(s') == Pending(s) && Sleepers(s') == Sleepers(s);
  }

  lemma SpuriousStep(s: System, wakes: set<Thread>)
    requires NoLostWakeup(s) && Can(s, Spurious(wakes))
    ensures NoLostWakeup(Do(s, Spurious(wakes)))
  {
    hide Pending, Sleepers, Balance;
    var s' := Do(s, Spurious(wakes));
    PendingOfWake(s, s'.pc, wakes);
    if u :| u in s.pc && s.pc[u].FlushBroadcast? {
      PendingMember(s, u);
      assert s'.pc[u].FlushBroadcast?;
    }
  }

  lemma BroadcastStep(s: System, t: Thread)
    requires NoLostWakeup(s) && Can(s, Broadcast(t))
    ensures NoLostWakeup(Do(s, Broadcast(t))) && Sleepers(Do(s, Broadcast(t))) == {}
  {
    hide Pending, Sleepers, Balance;
    var s' := Do(s, Broadcast(t));
    var m := s.(pc := Wake(s.pc, Sleepers(s)));
    PendingOfWake(s, m.pc, Sleepers(s));
    PendingOfMove(m, s', t);
  }

  lemma SignalStep(s: System, t: Thread, wakes: set<Thread>)
    requires NoLostWakeup(s) && Can(s, Signal(t, wakes))
    ensures NoLostWakeup(Do(s, Signal(t, wakes)))
  {
    hide Pending, Sleepers, Balance;
    var s' := Do(s, Signal(t, wakes));
    var m := s.(pc := Wake(s.pc, wakes));
    PendingMember(s, t);
    PendingOfWake(s, m.pc, wakes);
    PendingMember(m, t);
    PendingOfMove(m, s', t);
    assert t in Pending(s) && t !in wakes;
    assert |Pending(s')| == |Pending(s)| + |wakes| - 1;
    if u :| u in s.pc && s.pc[u].FlushBroadcast? {
      PendingMember(s, u);
      assert s'.pc[u].FlushBroadcast?;
    }
  }

  // ---------- Flushes ----------

  lemma FlushStep(s: System, step: Step)
    requires FlushStands(s) && Can(s, step)
    ensures FlushStands(Do(s, step))
  {
    hide Balance;
    if Wakes(step) { FlushWakeStep(s, step); } else { FlushMoveStep(s, step); }
  }

  lemma FlushWakeStep(s: System, step: Step)
    requires FlushStands(s) && Can(s, step) && Wakes(step)
    ensures FlushStands(Do(s, step))
  {
    hide Balance;
  }

  lemma FlushMoveStep(s: System, step: Step)
    requires FlushStands(s) && Can(s, step) && !Wakes(step)
    ensures FlushStands(Do(s, step))
  {
    hide Balance;
  }

  lemma ExitStep(s: System, step: Step)
    requires ExitsAreFinal(s) && Can(s, step)
    ensures ExitsAreFinal(Do(s, step))
  {
    hide Balance;
  }

  lemma CrashStep(s: System, step: Step)
    requires CrashEnds(s) && Can(s, step)
    ensures CrashEnds(Do(s, step))
  {
    hide Balance;
  }

  // ---------- Main results ----------

  lemma InvStep(s: System, step: Step)
    requires Inv(s) && Can(s, step)
    ensures Inv(Do(s, step))
  {
    MutexStep(s, step);
    WakeupStep(s, step);
    ConservedStep(s, step);
    ConductStep(s, step);
    InOrderStep(s, step);
    FlushStep(s, step);
    CrashStep(s, step);
    ExitStep(s, step);
  }

  lemma InvInit(s: System)
    requires Init(s)
    ensures Inv(s)
  {
    assert Sleepers(s) == {};
  }

  /** Every state of every run satisfies the invariants. */
  lemma {:induction false} InvHolds(s: System, steps: seq<Step>, t: System)
    requires Inv(s) && Runs(s, steps, t)
    ensures Inv(t)
    decreases |steps|
  {
    if steps != [] {
      InvStep(s, steps[0]);
      InvHolds(Do(s, steps[0]), steps[1..], t);
    }
  }

  /** No lost wake-up: in every interleaving, a thread asleep while nothing is pending means that
      the queue is alive and empty, or that the first flush is about to wake everyone; from the
      first broadcast on nobody sleeps, and no stop gets behind its own broadcast before that. */
  lemma SleepersMissNothing(s: System, steps: seq<Step>, t: System)
    requires Init(s) && Runs(s, steps, t)
    ensures Sleepers(t) != {} && t.list.alive ==> |t.list.items| <= |Pending(t)|
    ensures Sleepers(t) != {} && Pending(t) == {} && t.list.alive ==> t.list.items == []
    ensures Sleepers(t) != {} && !t.list.alive ==> exists u :: u in t.pc && t.pc[u].FlushBroadcast?
    ensures t.flushed ==> !t.list.alive && Sleepers(t) == {}
    ensures forall u | u in t.pc :: t.pc[u].FlushUnlock? || t.pc[u].Joining? ==> t.flushed
  {
    InvInit(s);
    InvHolds(s, steps, t);
  }

  /** A step that goes on with a call under way: no new submission or stop, no return of a join, and
      no wake-up without a reason. */
  predicate Continues(step: Step) {
    !step.Submit? && !step.Stop? && !step.Join? && !step.Spurious?
  }

  /** A queued worker is never stuck: in every run with a worker thread and no exception, while a
      live queue holds a worker some thread can go on with what it is doing. */
  lemma QueueNeverStuck(s: System, steps: seq<Step>, t: System)
    requires Init(s) && Runs(s, steps, t) && t.svc != {} && !t.terminated
    requires t.list.alive && t.list.items != []
    ensures exists step :: Continues(step) && Can(t, step)
  {
    hide Runs, Init, Balance, Inv;
    InvInit(s);
    InvHolds(s, steps, t);
    if t.lock.Some? { OwnerContinues(t); } else { SomeoneContinues(t); }
  }

  lemma OwnerContinues(s: System)
    requires Inv(s) && s.lock.Some? && !s.terminated
    ensures exists step :: Continues(step) && Can(s, step)
  {
    hide Balance, NoLostWakeup, Conserved, TakenAreRetrieved, InOrder, FlushStands;
    var t := s.lock.value;
    assert Critical(s.pc[t]);
    assert Can(s, Link(t)) || Can(s, Unlock(t)) || Can(s, Kill(t)) || Can(s, Broadcast(t)) || Can(s, Test(t));
  }

  /** While the mutex is free a worker thread goes on, or is asleep and someone is about to wake it. */
  lemma SomeoneContinues(s: System)
    requires Inv(s) && s.lock.None? && !s.terminated && s.svc != {} && s.list.alive && s.list.items != []
    ensures exists step :: Continues(step) && Can(s, step)
  {
    hide Balance, Conserved, TakenAreRetrieved, InOrder, FlushStands, Pending, Sleepers;
    var u :| u in s.svc;
    PendingMember(s, u);
    if s.pc[u].Sleeping? {
      assert Pending(s) != {};
      var v :| v in Pending(s);
      assert v in s.pc && Rousing(s.pc[v]) by { PendingIn(s, v); }
      assert Can(s, Acquire(v)) || Can(s, Signal(v, Sleepers(s)));
    } else {
      assert Can(s, Acquire(u)) || Can(s, Parse(u, Succeeded)) || Can(s, Retrieve(u));
    }
  }

  lemma PendingIn(s: System, t: Thread)
    requires t in Pending(s)
    ensures t in s.pc && Rousing(s.pc[t])
  {
  }

  function Submissions(log: seq<Event>, w: Worker): nat {
    if log == [] then 0 else Submissions(log[..|log| - 1], w) + if log[|log| - 1] == Submitted(w) then 1 else 0
  }

  function Drops(log: seq<Event>, w: Worker): nat {
    if log == [] then 0 else Drops(log[..|log| - 1], w) + if log[|log| - 1] == Dropped(w) then 1 else 0
  }

  function Retrievals(log: seq<Event>, w: Worker): nat {
    if log == [] then 0
    else Retrievals(log[..|log| - 1], w) + if log[|log| - 1].Retrieved? && log[|log| - 1].w == w then 1 else 0
  }

  lemma {:induction false} BalanceCounts(log: seq<Event>, w: Worker)
    ensures Balance(log, w) == Submissions(log, w) - Drops(log, w) - Retrievals(log, w)
  {
    if log != [] { BalanceCounts(log[..|log| - 1], w); }
  }

  ghost predicate CarriedByExactlyOne(s: System, w: Worker) {
    exists t | t in s.pc :: Carried(s.pc[t]) == Some(w) && forall u | u in s.pc && u != t :: Carried(s.pc[u]) != Some(w)
  }

  /** Conservation of workers: a worker submitted once is, at every moment of every run, in exactly
      one of four places: once in the queue, in the hands of exactly one thread, retrieved exactly
      once, or dropped by a put behind a flush. */
  lemma WorkersAreConserved(s: System, steps: seq<Step>, t: System, w: Worker)
    requires Init(s) && Runs(s, steps, t) && Submissions(t.log, w) == 1
    ensures var queued, carried := w in t.list.items, CarriedByExactlyOne(t, w);
            var retrieved, dropped := Retrievals(t.log, w), Drops(t.log, w);
            || (queued && !CarriedBySome(t, w) && retrieved == 0 && dropped == 0)
            || (!queued && carried && retrieved == 0 && dropped == 0)
            || (!queued && !CarriedBySome(t, w) && retrieved == 1 && dropped == 0)
            || (!queued && !CarriedBySome(t, w) && retrieved == 0 && dropped == 1)
    ensures forall i, j | 0 <= i < j < |t.list.items| :: t.list.items[i] != t.list.items[j]
  {
    InvInit(s);
    InvHolds(s, steps, t);
    BalanceCounts(t.log, w);
    if CarriedBySome(t, w) {
      var u :| u in t.pc && Carried(t.pc[u]) == Some(w);
      assert Carried(t.pc[u]).value !in t.list.items;
    }
  }

  /** Between two takes of one thread lies the retrieval of the first worker, and nothing else of
      that thread; workers are taken in the order in which the puts linked them in. */
  lemma TakesAreAnsweredInOrder(s: System, steps: seq<Step>, t: System)
    requires Init(s) && Runs(s, steps, t)
    ensures forall u | u in t.svc :: ConductOf(t.log, u) != Violation
    ensures forall u | u in t.svc && u in t.pc && t.pc[u].GetLock? :: ConductOf(t.log, u) == Ready
    ensures t.list.returned <= t.accepted
  {
    InvInit(s);
    InvHolds(s, steps, t);
  }

  // ---------- Shutting down ----------

  /** How many more steps a worker thread takes once the list is dead and nobody sleeps. */
  function StepsLeft(pc: Pc): nat {
    match pc
    case GetUnlock(Some(_)) => 6
    case Parsing(_) => 5
    case Parsed(_, _) => 4
    case GetLock => 3
    case Woken => 3
    case GetTest(_) => 2
    case GetUnlock(None) => 1
    case _ => 0
  }

  /** What a stop that has broadcast leaves: see JoiningMeansShutDown. */
  ghost predicate ShutDown(s: System) {
    Inv(s) && s.flushed
  }

  /** The thread that moves; none when sleepers wake by themselves. */
  function Mover(step: Step): Option<Thread> {
    if step.Spurious? then None else Some(step.t)
  }

  lemma ShutdownStep(s: System, step: Step, u: Thread)
    requires ShutDown(s) && Can(s, step) && u in s.svc
    ensures var s' := Do(s, step);
            && ShutDown(s') && s'.svc == s.svc && u in s'.pc && StepsLeft(s'.pc[u]) <= StepsLeft(s.pc[u])
            && (Mover(step) == Some(u) ==> StepsLeft(s'.pc[u]) < StepsLeft(s.pc[u]))
  {
    InvStep(s, step);
    ShutdownMove(s, step, u);
  }

  lemma ShutdownMove(s: System, step: Step, u: Thread)
    requires MutexHeld(s) && !s.list.alive && Sleepers(s) == {} && s.flushed && Can(s, step) && u in s.svc
    ensures var s' := Do(s, step);
            && u in s'.pc && s'.svc == s.svc && s'.flushed && StepsLeft(s'.pc[u]) <= StepsLeft(s.pc[u])
            && (Mover(step) == Some(u) ==> StepsLeft(s'.pc[u]) < StepsLeft(s.pc[u]))
  {
    hide Balance;
  }

  /** How many of the steps are moves of one thread. */
  ghost function Moves(steps: seq<Step>, u: Thread): nat {
    if steps == [] then 0 else (if Mover(steps[0]) == Some(u) then 1 else 0) + Moves(steps[1..], u)
  }

  lemma {:induction false} ShutdownRun(s: System, steps: seq<Step>, t: System, u: Thread)
    requires ShutDown(s) && Runs(s, steps, t) && u in s.svc
    ensures ShutDown(t) && t.svc == s.svc && u in s.pc && u in t.pc
    ensures Moves(steps, u) + StepsLeft(t.pc[u]) <= StepsLeft(s.pc[u])
    decreases |steps|
  {
    hide Inv, StepsLeft;
    assert MutexHeld(s) by { MutexOfInv(s); }
    if steps != [] {
      ShutdownStep(s, steps[0], u);
      ShutdownRun(Do(s, steps[0]), steps[1..], t, u);
    }
  }

  lemma MutexOfInv(s: System)
    requires Inv(s)
    ensures MutexHeld(s)
  {
  }

  /** Once a stop waits in join, its broadcast has been given: the list is dead and nobody sleeps. */
  lemma JoiningMeansShutDown(s: System, steps: seq<Step>, t: System, u: Thread)
    requires Init(s) && Runs(s, steps, t) && u in t.pc && (t.pc[u].FlushUnlock? || t.pc[u].Joining?)
    ensures ShutDown(t) && !t.list.alive && Sleepers(t) == {}
  {
    InvInit(s);
    InvHolds(s, steps, t);
  }

  ghost predicate AllExited(s: System) {
    forall u | u in s.svc :: u in s.pc && s.pc[u].Exited?
  }

  lemma ExitedStay(s: System, step: Step)
    requires AllExited(s) && Can(s, step)
    ensures AllExited(Do(s, step))
  {
    hide Balance, WaitList.Apply;
  }

  lemma {:induction false} ExitedForGood(s: System, steps: seq<Step>, t: System)
    requires AllExited(s) && Runs(s, steps, t)
    ensures AllExited(t)
    decreases |steps|
  {
    hide AllExited, Can, Do;
    if steps != [] {
      ExitedStay(s, steps[0]);
      ExitedForGood(Do(s, steps[0]), steps[1..], t);
    }
  }

  /** When a stop has come back from join, every worker thread has ended, for good. */
  lemma {:induction false} StopOutlivesWorkers(s: System, steps: seq<Step>, t: System, i: nat)
    requires Runs(s, steps, t) && i < |steps| && steps[i].Join?
    ensures AllExited(t)
    decreases i
  {
    hide Do;
    if i == 0 {
      ExitedStay(s, steps[0]);
      ExitedForGood(Do(s, steps[0]), steps[1..], t);
    } else {
      StopOutlivesWorkers(Do(s, steps[0]), steps[1..], t, i - 1);
    }
  }

  /** A run in which some stop waits in join, and any run that goes on from there: each worker
      thread makes at most six more moves, and never sleeps again. */
  lemma StopEndsWorkers(s: System, steps: seq<Step>, t: System, joining: Thread, more: seq<Step>, t': System, u: Thread)
    requires Init(s) && Runs(s, steps, t) && joining in t.pc && t.pc[joining].Joining?
    requires Runs(t, more, t') && u in t.svc
    ensures u in t'.pc && Moves(more, u) <= 6 && !t'.list.alive && Sleepers(t') == {}
    ensures Moves(more, u) == 6 ==> t'.pc[u].Exited? || t'.pc[u].Crashed?
  {
    hide Inv, Init, Runs, Moves;
    JoiningMeansShutDown(s, steps, t, joining);
    ShutdownRun(t, more, t', u);
    ShutDownThread(t', u);
  }

  /** What a worker thread can be doing behind a broadcast. */
  lemma ShutDownThread(s: System, u: Thread)
    requires ShutDown(s) && u in s.svc && u in s.pc
    ensures !s.list.alive && Sleepers(s) == {} && InSvc(s.pc[u]) && !s.pc[u].Sleeping?
  {
    hide Sleepers, NoLostWakeup, Conserved, TakenAreRetrieved, InOrder;
    PendingMember(s, u);
  }

  /** In that run the join never waits in vain: unless the process was ended by an exception, the
      join can return, or a worker thread that has not returned or the owner of the mutex can move. */
  lemma StopNeverBlocks(s: System, steps: seq<Step>, t: System, joining: Thread)
    requires Init(s) && Runs(s, steps, t) && joining in t.pc && t.pc[joining].Joining? && !t.terminated
    ensures forall u | u in t.svc :: u in t.pc && (t.pc[u].Exited? || CanProceed(t, u))
    ensures Can(t, Join(joining)) || exists u | u in t.svc :: CanProceed(t, u)
  {
    JoiningMeansShutDown(s, steps, t, joining);
    assert MutexHeld(t) && CrashEnds(t);
    forall u | u in t.svc ensures u in t.pc && (t.pc[u].Exited? || CanProceed(t, u)) {
      if !t.pc[u].Exited? { ShutdownNeverBlocks(t, u); }
    }
  }

  /** The thread or the owner of the mutex can make a move of its own. */
  ghost predicate CanProceed(s: System, u: Thread) {
    exists step :: Can(s, step) && (Mover(step) == Some(u) || (s.lock.Some? && Mover(step) == s.lock))
  }

  lemma ShutdownNeverBlocks(s: System, u: Thread)
    requires ShutDown(s) && u in s.svc && u in s.pc && !s.pc[u].Exited? && !s.terminated
    ensures CanProceed(s, u)
  {
    hide Balance, NoLostWakeup, Conserved, TakenAreRetrieved, InOrder, Sleepers;
    ShutDownThread(s, u);
    var t := if s.lock.Some? then s.lock.value else u;
    if s.lock.None? {
      assert Can(s, Acquire(u)) || Can(s, Parse(u, Succeeded)) || Can(s, Retrieve(u));
    } else {
      assert Critical(s.pc[t]);
      assert Can(s, Link(t)) || Can(s, Unlock(t)) || Can(s, Kill(t)) || Can(s, Broadcast(t)) || Can(s, Test(t));
    }
  }
}
