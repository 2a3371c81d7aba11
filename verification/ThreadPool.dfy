/** The thread pool of basis/fwoop_threadpool.h as interleaved steps of its workers, of client threads
    calling enqueue, of one thread calling close and of one calling wait.  One step is one access to
    shared state; popping an empty queue is undefined behaviour and ends in a fault. */
module ThreadPool {
  import opened Wrappers

  type Job = nat

  datatype Thread = Worker(w: nat) | Client(c: nat) | Closer | Waiter

  /** Where a worker is in workJob. */
  datatype WorkerPc =
    | Unstarted                // before d_numActive++
    | StartLock                // before locking d_startMutex
    | StartNotify              // holds d_startMutex
    | TestStop                 // loop test, reads d_isStopping without the mutex
    | TestEmpty                // loop test, reads the queue's size without the mutex
    | Lock                     // before locking d_poolMutex
    | Check                    // holds it: the first test of the body reads d_isStopping,
    | CheckSize                // then the size
    | CheckEmpty               // holds it: the second test
    | Waiting                  // in d_poolCond.wait, mutex released
    | Woken                    // notified, before locking again
    | Recheck                  // holds it: the test after the wait reads d_isStopping,
    | RecheckSize              // then the size
    | Front(waited: bool)      // holds it: moves out of front()
    | PopFront(job: Job)       // holds it: pop_front
    | Unlock(ticket: nat)      // holds it
    | Running(ticket: nat)
    | Leaving                  // break: the lock's destructor is next
    | Finishing                // before d_numFinished++
    | NotifyAll
    | Done

  /** Where a client is in enqueue; a rejected call returns without unlocking. */
  datatype ClientPc = Idle | EnqueueLock(job: Job) | EnqueueCheck(job: Job) | EnqueuePush(job: Job) | EnqueueUnlock
    | EnqueueNotify

  datatype CloserPc = NotClosing | CloseTest | CloseLock | CloseWait | CloseSleep | CloseWoken | CloseUnlock
    | CloseSet | CloseNotify | Closed

  /** Where the waiter is in wait; WaitFalse: the predicate was read as false, the mutex not yet released. */
  datatype WaiterPc = NotWaiting | WaitTest | WaitLock | WaitPredicate | WaitFalse | WaitSleep | WaitWoken | WaitUnlock
    | WaitReturned

  datatype State = State(
    poolHolder: Option<Thread>,
    startHolder: Option<Thread>,
    queue: seq<Job>,
    stopping: bool,
    numActive: nat,
    numFinished: nat,
    workers: seq<WorkerPc>,
    clients: seq<ClientPc>,
    closer: CloserPc,
    waiter: WaiterPc,
    fault: bool,
    // history: jobs in the order enqueue accepted them, jobs in the order they were popped, and the
    // tickets (positions in the popping order) of the jobs that ran to completion
    accepted: seq<Job>,
    dequeued: seq<Job>,
    completed: seq<nat>)

  function Init(size: nat, clients: nat): State {
    var workers, idle := seq(size, _ => Unstarted), seq(clients, _ => Idle);
    State(None, None, [], false, 0, 0, workers, idle, NotClosing, NotWaiting, false, [], [], [])
  }

  /** A step; wake is the thread a notify_one chooses. */
  datatype Step =
    | WorkerStep(w: nat)
    | BeginEnqueue(c: nat, job: Job)
    | ClientStep(c: nat, wake: Option<Thread>)
    | BeginClose
    | CloserStep
    | BeginWait
    | WaiterStep
    | Spurious(thread: Thread)

  // ----- Waking

  predicate Sleeps(s: State, t: Thread) {
    match t
    case Worker(w) => w < |s.workers| && s.workers[w] == Waiting
    case Waiter => s.waiter == WaitSleep
    case Closer => s.closer == CloseSleep
    case Client(_) => false
  }

  function Wake(s: State, t: Thread): State
    requires Sleeps(s, t)
  {
    match t
    case Worker(w) => s.(workers := s.workers[w := Woken])
    case Waiter => s.(waiter := WaitWoken)
    case Closer => s.(closer := CloseWoken)
  }

  function Awake(pc: WorkerPc): WorkerPc { if pc == Waiting then Woken else pc }

  /** d_poolCond.notify_all */
  function WakeAll(s: State): State {
    s.(workers := seq(|s.workers|, i requires 0 <= i < |s.workers| => Awake(s.workers[i])),
       waiter := if s.waiter == WaitSleep then WaitWoken else s.waiter)
  }

  /** A legal choice of d_poolCond.notify_one: a thread that waits there, or none if none does. */
  ghost predicate NotifyChoice(s: State, wake: Option<Thread>) {
    match wake
    case Some(t) => t != Closer && Sleeps(s, t)
    case None => forall t :: t != Closer ==> !Sleeps(s, t)
  }

  // ----- The steps

  ghost predicate Enabled(s: State, step: Step) {
    !s.fault &&
    match step
    case WorkerStep(w) =>
      w < |s.workers| && (
        match s.workers[w]
        case StartLock => s.startHolder == None
        case Lock => s.poolHolder == None
        case Woken => s.poolHolder == None
        case Waiting => false
        case Done => false
        case _ => true)
    case BeginEnqueue(c, _) => c < |s.clients| && s.clients[c] == Idle
    case ClientStep(c, wake) =>
      c < |s.clients| && (
        match s.clients[c]
        case Idle => false
        case EnqueueLock(_) => s.poolHolder == None
        case EnqueueNotify => NotifyChoice(s, wake)
        case _ => true)
    case BeginClose => s.closer == NotClosing
    case CloserStep => (
        match s.closer
        case CloseLock => s.startHolder == None
        case CloseWoken => s.startHolder == None
        case CloseSleep => false
        case NotClosing => false
        case Closed => false
        case _ => true)
    case BeginWait => s.waiter == NotWaiting
    case WaiterStep => (
        match s.waiter
        case WaitLock => s.poolHolder == None
        case WaitWoken => s.poolHolder == None
        case WaitSleep => false
        case NotWaiting => false
        case WaitReturned => false
        case _ => true)
    case Spurious(t) => Sleeps(s, t)
  }

  /** Where a worker at pc goes, given what it may read. */
  function WorkerGoes(pc: WorkerPc, stopping: bool, queue: seq<Job>, ticket: nat): WorkerPc {
    match pc
    case Unstarted => StartLock
    case StartLock => StartNotify
    case StartNotify => TestStop
    case TestStop => if stopping then TestEmpty else Lock
    case TestEmpty => if |queue| > 0 then Lock else Finishing
    case Lock => Check
    case Check => if stopping then CheckSize else CheckEmpty
    case CheckSize => if |queue| == 0 then Leaving else CheckEmpty
    case CheckEmpty => if |queue| == 0 then Waiting else Front(false)
    case Woken => Recheck
    case Recheck => if stopping then RecheckSize else Front(true)
    case RecheckSize => if |queue| == 0 then Leaving else Front(true)
    case Front(waited) => if |queue| == 0 then Front(waited) else PopFront(queue[0])
    case PopFront(job) => if |queue| == 0 then PopFront(job) else Unlock(ticket)
    case Unlock(t) => Running(t)
    case Running(_) => TestStop
    case Leaving => Finishing
    case Finishing => NotifyAll
    case NotifyAll => Done
    case Waiting => Waiting
    case Done => Done
  }

  /** What the step of worker w at pc does to everything but its own place. */
  function WorkerEffect(s: State, w: nat, pc: WorkerPc): State {
    if pc == Lock || pc == Woken then s.(poolHolder := Some(Worker(w)))
    else if (pc == CheckEmpty && |s.queue| == 0) || pc.Unlock? || pc == Leaving then s.(poolHolder := None)
    else if (pc.Front? || pc.PopFront?) && |s.queue| == 0 then s.(fault := true)
    else
      match pc
      case Unstarted => s.(numActive := s.numActive + 1)
      case StartLock => s.(startHolder := Some(Worker(w)))
      case StartNotify => s.(startHolder := None, closer := if s.closer == CloseSleep then CloseWoken else s.closer)
      case PopFront(job) => s.(queue := s.queue[1..], dequeued := s.dequeued + [job])
      case Running(ticket) => s.(completed := s.completed + [ticket])
      case Finishing => s.(numFinished := s.numFinished + 1)
      case NotifyAll => WakeAll(s)
      case _ => s
  }

  function WorkerNext(s: State, w: nat): State
    requires w < |s.workers|
  {
    var pc := s.workers[w];
    var s' := WorkerEffect(s, w, pc);
    s'.(workers := s'.workers[w := WorkerGoes(pc, s.stopping, s.queue, |s.dequeued|)])
  }

  function ClientNext(s: State, c: nat, wake: Option<Thread>): State
    requires c < |s.clients| && (s.clients[c] == EnqueueNotify ==> wake.Some? ==> Sleeps(s, wake.value))
  {
    var at := (pc: ClientPc) => s.(clients := s.clients[c := pc]);
    match s.clients[c]
    case EnqueueLock(job) => at(EnqueueCheck(job)).(poolHolder := Some(Client(c)))
    case EnqueueCheck(job) => at(if s.stopping then Idle else EnqueuePush(job))
    case EnqueuePush(job) => at(EnqueueUnlock).(queue := s.queue + [job], accepted := s.accepted + [job])
    case EnqueueUnlock => at(EnqueueNotify).(poolHolder := None)
    case EnqueueNotify =>
      var s' := if wake.Some? then Wake(s, wake.value) else s;
      s'.(clients := s.clients[c := Idle])
    case Idle => s
  }

  function CloserNext(s: State): State {
    match s.closer
    case CloseTest => s.(closer := if s.numActive < |s.workers| then CloseLock else CloseSet)
    case CloseLock => s.(closer := CloseWait, startHolder := Some(Closer))
    case CloseWait => s.(closer := CloseSleep, startHolder := None)
    case CloseWoken => s.(closer := CloseUnlock, startHolder := Some(Closer))
    case CloseUnlock => s.(closer := CloseTest, startHolder := None)
    case CloseSet => s.(closer := CloseNotify, stopping := true)
    case CloseNotify => WakeAll(s).(closer := Closed)
    case _ => s
  }

  function WaiterNext(s: State): State {
    match s.waiter
    case WaitTest => s.(waiter := if s.numFinished < |s.workers| then WaitLock else WaitReturned)
    case WaitLock => s.(waiter := WaitPredicate, poolHolder := Some(Waiter))
    case WaitPredicate => s.(waiter := if s.numFinished == |s.workers| then WaitUnlock else WaitFalse)
    case WaitFalse => s.(waiter := WaitSleep, poolHolder := None)
    case WaitWoken => s.(waiter := WaitPredicate, poolHolder := Some(Waiter))
    case WaitUnlock => s.(waiter := WaitTest, poolHolder := None)
    case _ => s
  }

  ghost function Next(s: State, step: Step): State
    requires Enabled(s, step)
  {
    match step
    case WorkerStep(w) => WorkerNext(s, w)
    case BeginEnqueue(c, job) => s.(clients := s.clients[c := EnqueueLock(job)])
    case ClientStep(c, wake) => ClientNext(s, c, wake)
    case BeginClose => s.(closer := CloseTest)
    case CloserStep => CloserNext(s)
    case BeginWait => s.(waiter := WaitTest)
    case WaiterStep => WaiterNext(s)
    case Spurious(t) => Wake(s, t)
  }

  /** steps is an interleaving that can happen from s. */
  ghost predicate Possible(s: State, steps: seq<Step>)
    decreases |steps|
  {
    steps == [] || (Enabled(s, steps[0]) && Possible(Next(s, steps[0]), steps[1..]))
  }

  ghost function Run(s: State, steps: seq<Step>): State
    requires Possible(s, steps)
    decreases |steps|
  {
    if steps == [] then s else Run(Next(s, steps[0]), steps[1..])
  }

  /** The callers' discipline: no enqueue is under way when close begins, none begins afterwards. */
  predicate Disciplined(s: State, step: Step) {
    match step
    case BeginEnqueue(_, _) => s.closer == NotClosing
    case BeginClose => AllIdle(s.clients)
    case _ => true
  }

  ghost predicate DisciplinedRun(s: State, steps: seq<Step>)
    decreases |steps|
  {
    steps == [] || (Enabled(s, steps[0]) && Disciplined(s, steps[0]) && DisciplinedRun(Next(s, steps[0]), steps[1..]))
  }

  // ----- The invariant of every interleaving

  predicate HoldsPool(pc: WorkerPc) {
    pc.Check? || pc.CheckSize? || pc.CheckEmpty? || pc.Recheck? || pc.RecheckSize? || pc.Front? || pc.PopFront?
      || pc.Unlock? || pc.Leaving?
  }

  predicate ClientHolds(pc: ClientPc) { pc.EnqueueCheck? || pc.EnqueuePush? || pc.EnqueueUnlock? }

  /** Whoever stands between lock and unlock is the holder. */
  ghost predicate Exclusion(s: State) {
    && (forall w :: 0 <= w < |s.workers| && HoldsPool(s.workers[w]) ==> s.poolHolder == Some(Worker(w)))
    && (forall c :: 0 <= c < |s.clients| && ClientHolds(s.clients[c]) ==> s.poolHolder == Some(Client(c)))
    && (s.waiter == WaitPredicate || s.waiter == WaitFalse || s.waiter == WaitUnlock ==> s.poolHolder == Some(Waiter))
  }

  /** Nothing lost, nothing twice, in order; and what a worker has seen under the mutex still holds. */
  ghost predicate Fifo(s: State) {
    && s.accepted == s.dequeued + s.queue
    && (forall w :: 0 <= w < |s.workers| && s.workers[w].PopFront? ==> s.queue != [] && s.queue[0] == s.workers[w].job)
    && (forall w :: 0 <= w < |s.workers| && s.workers[w] == Front(false) ==> s.queue != [])
  }

  function TicketOf(pc: WorkerPc): Option<nat> {
    match pc
    case Unlock(t) => Some(t)
    case Running(t) => Some(t)
    case _ => None
  }

  ghost predicate HeldBy(s: State, w: nat, t: nat) { w < |s.workers| && TicketOf(s.workers[w]) == Some(t) }

  /** Every popped job is with exactly one worker or has run exactly once. */
  ghost predicate Tickets(s: State) { CompletedOnce(s) && HeldOpen(s) && HeldByOne(s) && AllAccounted(s) }

  ghost predicate CompletedOnce(s: State) {
    && (forall i :: 0 <= i < |s.completed| ==> s.completed[i] < |s.dequeued|)
    && (forall i, j :: 0 <= i < j < |s.completed| ==> s.completed[i] != s.completed[j])
  }

  ghost predicate HeldOpen(s: State) {
    forall w: nat, t: nat :: HeldBy(s, w, t) ==> t < |s.dequeued| && t !in s.completed
  }

  ghost predicate HeldByOne(s: State) {
    forall v: nat, w: nat, t: nat :: HeldBy(s, v, t) && HeldBy(s, w, t) ==> v == w
  }

  ghost predicate AllAccounted(s: State) {
    forall t: nat :: t < |s.dequeued| ==> t in s.completed || exists w: nat :: HeldBy(s, w, t)
  }

  predicate Started(pc: WorkerPc) { pc != Unstarted }

  predicate Finished(pc: WorkerPc) { pc == NotifyAll || pc == Done }

  function Count(pcs: seq<WorkerPc>, p: WorkerPc -> bool): nat {
    if pcs == [] then 0 else (if p(pcs[0]) then 1 else 0) + Count(pcs[1..], p)
  }

  /** The counters count. */
  ghost predicate Counters(s: State) {
    s.numActive == Count(s.workers, Started) && s.numFinished == Count(s.workers, Finished)
  }

  /** The stop flag is up only after close's loop has seen every worker started. */
  ghost predicate StopAfterStart(s: State) {
    && (s.stopping <==> s.closer == CloseNotify || s.closer == Closed)
    && (s.closer == CloseSet || s.stopping ==> forall w :: 0 <= w < |s.workers| ==> Started(s.workers[w]))
    && (s.waiter == WaitReturned ==> s.numFinished >= |s.workers|)
  }

  ghost predicate Invariant(s: State) {
    Exclusion(s) && Fifo(s) && Tickets(s) && Counters(s) && StopAfterStart(s)
  }

  // ----- Every step keeps it

  /** Workers may have been woken; nothing else about them changed. */
  ghost predicate OnlyWoken(s: State, s': State) {
    && |s'.workers| == |s.workers|
    && forall i :: 0 <= i < |s.workers| ==>
      s'.workers[i] == s.workers[i] || (s.workers[i] == Waiting && s'.workers[i] == Woken)
  }

  /** What a step of another thread does to the fields the workers' invariants speak of. */
  lemma OthersOnlyWake(s: State, step: Step)
    requires Enabled(s, step) && !step.WorkerStep?
    ensures var s' := Next(s, step);
      && OnlyWoken(s, s') && s'.fault == s.fault
      && s'.dequeued == s.dequeued && s'.completed == s.completed
      && s'.numActive == s.numActive && s'.numFinished == s.numFinished
  {
  }

  /** What a worker's step leaves alone. */
  lemma WorkerFrame(s: State, w: nat)
    requires w < |s.workers|
    ensures var s' := WorkerNext(s, w);
      && |s'.workers| == |s.workers|
      && (forall v :: 0 <= v < |s.workers| && v != w ==>
           s'.workers[v] == s.workers[v] || (s.workers[v] == Waiting && s'.workers[v] == Woken))
      && s'.clients == s.clients && s'.stopping == s.stopping && s'.accepted == s.accepted
      && (s'.closer == s.closer || (s.closer == CloseSleep && s'.closer == CloseWoken))
      && (s'.waiter == s.waiter || (s.waiter == WaitSleep && s'.waiter == WaitWoken))
      && s'.numFinished >= s.numFinished && (Started(s.workers[w]) ==> Started(s'.workers[w]))
  {
    hide Sleeps, WorkerGoes;
    WorkerStays(s.workers[w], s.stopping, s.queue, |s.dequeued|);
  }

  lemma WorkerStays(pc: WorkerPc, stopping: bool, queue: seq<Job>, ticket: nat)
    ensures Started(pc) ==> Started(WorkerGoes(pc, stopping, queue, ticket))
  {
  }

  /** A worker's step takes the free pool mutex, gives up its own, or leaves the holder. */
  lemma HolderMoves(s: State, w: nat)
    requires Enabled(s, WorkerStep(w))
    ensures var s' := WorkerNext(s, w);
      var before, after := HoldsPool(s.workers[w]), HoldsPool(s'.workers[w]);
      || (s'.poolHolder == s.poolHolder && (after ==> before))
      || (s.poolHolder == None && s'.poolHolder == Some(Worker(w)))
      || (before && !after && s'.poolHolder == None)
  {
    hide NotifyChoice, Sleeps;
  }

  lemma ExclusionKeptByWorker(s: State, w: nat)
    requires Enabled(s, WorkerStep(w)) && Exclusion(s)
    ensures Exclusion(WorkerNext(s, w))
  {
    WorkerFrame(s, w);
    HolderMoves(s, w);
    hide NotifyChoice, Sleeps, WorkerNext;
  }

  lemma ExclusionKeptByClient(s: State, c: nat, wake: Option<Thread>)
    requires Enabled(s, ClientStep(c, wake)) && Exclusion(s)
    ensures Exclusion(ClientNext(s, c, wake))
  {
    OthersOnlyWake(s, ClientStep(c, wake));
  }

  lemma ExclusionKeptByOthers(s: State, step: Step)
    requires Enabled(s, step) && Exclusion(s) && !step.WorkerStep? && !step.ClientStep?
    ensures Exclusion(Next(s, step))
  {
    OthersOnlyWake(s, step);
    hide NotifyChoice;
  }

  lemma ExclusionKept(s: State, step: Step)
    requires Enabled(s, step) && Exclusion(s)
    ensures Exclusion(Next(s, step))
  {
    hide Exclusion;
    match step
    case WorkerStep(w) => ExclusionKeptByWorker(s, w);
    case ClientStep(c, wake) => ExclusionKeptByClient(s, c, wake);
    case _ => ExclusionKeptByOthers(s, step);
  }

  /** What a worker's step does to the queue, and what it then knows of it. */
  lemma QueueMoves(s: State, w: nat)
    requires Enabled(s, WorkerStep(w))
    ensures var s' := WorkerNext(s, w);
      var before, after := s.workers[w], s'.workers[w];
      || (s'.queue == s.queue && s'.dequeued == s.dequeued
          && (after.PopFront? ==> (s.queue != [] && after.job == s.queue[0]) || after == before)
          && (after == Front(false) ==> s.queue != [] || after == before))
      || (before.PopFront? && s.queue != [] && s'.queue == s.queue[1..] && s'.dequeued == s.dequeued + [before.job]
        && after.Unlock?)
  {
    hide NotifyChoice, Sleeps;
  }

  lemma FifoKeptByWorker(s: State, w: nat)
    requires Enabled(s, WorkerStep(w)) && Exclusion(s) && Fifo(s)
    ensures Fifo(WorkerNext(s, w))
  {
    WorkerFrame(s, w);
    QueueMoves(s, w);
    if HoldsPool(s.workers[w]) {
      AloneInside(s, w);
    }
    hide Enabled, Exclusion, WorkerNext;
    FifoFrame(s, WorkerNext(s, w), w);
  }

  lemma AloneInside(s: State, w: nat)
    requires w < |s.workers| && Exclusion(s) && HoldsPool(s.workers[w])
    ensures forall v :: 0 <= v < |s.workers| && v != w ==> !HoldsPool(s.workers[v])
  {
  }

  lemma FifoFrame(s: State, s': State, w: nat)
    requires Fifo(s) && w < |s.workers| == |s'.workers| && s'.accepted == s.accepted
    requires forall v :: 0 <= v < |s.workers| && v != w ==> s'.workers[v] == s.workers[v] || s'.workers[v] == Woken
    requires var before, after := s.workers[w], s'.workers[w];
      || (s'.queue == s.queue && s'.dequeued == s.dequeued
          && (after.PopFront? ==> (s.queue != [] && after.job == s.queue[0]) || after == before)
          && (after == Front(false) ==> s.queue != [] || after == before))
      || (before.PopFront? && s.queue != [] && s'.queue == s.queue[1..] && s'.dequeued == s.dequeued + [before.job]
        && after.Unlock?)
    requires s'.queue != s.queue ==> forall v :: 0 <= v < |s.workers| && v != w ==> !HoldsPool(s.workers[v])
    ensures Fifo(s')
  {
    if s'.queue != s.queue {
      assert s.queue == [s.queue[0]] + s.queue[1..];
    }
  }

  lemma FifoKeptByOthers(s: State, step: Step)
    requires Enabled(s, step) && Exclusion(s) && Fifo(s) && !step.WorkerStep?
    ensures Fifo(Next(s, step))
  {
    OthersOnlyWake(s, step);
    hide NotifyChoice, Sleeps;
  }

  lemma FifoKept(s: State, step: Step)
    requires Enabled(s, step) && Exclusion(s) && Fifo(s)
    ensures Fifo(Next(s, step))
  {
    hide Fifo, Exclusion;
    match step
    case WorkerStep(w) => FifoKeptByWorker(s, w);
    case _ => FifoKeptByOthers(s, step);
  }

  /** A step of worker w leaves the tickets of the others alone. */
  lemma TicketsOfOthers(s: State, step: Step)
    requires Enabled(s, step)
    ensures var s' := Next(s, step);
      forall v: nat :: v < |s.workers| && step != WorkerStep(v) ==> TicketOf(s'.workers[v]) == TicketOf(s.workers[v])
    ensures |Next(s, step).workers| == |s.workers|
  {
    hide NotifyChoice;
    if step.WorkerStep? {
    } else {
      hide Sleeps;
      OthersOnlyWake(s, step);
    }
  }

  /** What one step of a worker does with tickets: takes the next, keeps its own, or completes it. */
  lemma TicketMoves(s: State, w: nat)
    requires Enabled(s, WorkerStep(w))
    ensures var s' := Next(s, WorkerStep(w));
      var before, after := TicketOf(s.workers[w]), TicketOf(s'.workers[w]);
      || (after == before && s'.completed == s.completed && s'.dequeued == s.dequeued)
      || (before == None && after == Some(|s.dequeued|) && s'.completed == s.completed
        && |s'.dequeued| == |s.dequeued| + 1)
      || (before.Some? && after == None && s'.completed == s.completed + [before.value] && s'.dequeued == s.dequeued)
  {
    hide NotifyChoice, Sleeps;
  }

  /** A step of worker w as the tickets see it. */
  ghost predicate MovesTicket(s: State, s': State, w: nat) {
    && (forall v: nat, t: nat :: v != w ==> (HeldBy(s', v, t) <==> HeldBy(s, v, t)))
    && (|| ((forall t: nat :: HeldBy(s', w, t) <==> HeldBy(s, w, t))
            && s'.completed == s.completed && s'.dequeued == s.dequeued)
        || ((forall t: nat :: !HeldBy(s, w, t)) && (forall t: nat :: HeldBy(s', w, t) <==> t == |s.dequeued|)
            && s'.completed == s.completed && |s'.dequeued| == |s.dequeued| + 1)
        || ((forall t: nat :: !HeldBy(s', w, t)) && s'.dequeued == s.dequeued
            && exists done: nat :: HeldBy(s, w, done) && s'.completed == s.completed + [done]
                 && forall t: nat :: HeldBy(s, w, t) <==> t == done))
  }

  lemma WorkerMovesTicket(s: State, w: nat)
    requires Enabled(s, WorkerStep(w))
    ensures MovesTicket(s, Next(s, WorkerStep(w)), w)
  {
    assert w < |s.workers|;
    hide Enabled, Next, TicketOf;
    TicketsOfOthers(s, WorkerStep(w));
    TicketMoves(s, w);
    if TicketOf(s.workers[w]).Some? {
      assert HeldBy(s, w, TicketOf(s.workers[w]).value);
    }
  }

  lemma CompletedOnceKept(s: State, s': State, w: nat)
    requires MovesTicket(s, s', w) && CompletedOnce(s) && HeldOpen(s)
    ensures CompletedOnce(s')
  {
    hide HeldBy;
  }

  lemma HeldOpenKept(s: State, s': State, w: nat)
    requires MovesTicket(s, s', w) && CompletedOnce(s) && HeldOpen(s) && HeldByOne(s)
    ensures HeldOpen(s')
  {
    hide HeldBy;
    forall v: nat, t: nat | HeldBy(s', v, t)
      ensures t < |s'.dequeued| && t !in s'.completed
    {
      assert v != w ==> HeldBy(s, v, t);
    }
  }

  lemma HeldByOneKept(s: State, s': State, w: nat)
    requires MovesTicket(s, s', w) && HeldOpen(s) && HeldByOne(s)
    ensures HeldByOne(s')
  {
    hide HeldBy;
    forall u: nat, v: nat, t: nat | HeldBy(s', u, t) && HeldBy(s', v, t)
      ensures u == v
    {
      assert u != w ==> HeldBy(s, u, t);
      assert v != w ==> HeldBy(s, v, t);
    }
  }

  lemma AllAccountedKept(s: State, s': State, w: nat)
    requires MovesTicket(s, s', w) && AllAccounted(s)
    ensures AllAccounted(s')
  {
    hide HeldBy;
    forall t: nat | t < |s'.dequeued|
      ensures t in s'.completed || exists v: nat :: HeldBy(s', v, t)
    {
      if t >= |s.dequeued| {
        assert HeldBy(s', w, t);
      } else if t !in s'.completed {
        var v: nat :| HeldBy(s, v, t);
        assert HeldBy(s', v, t);
      }
    }
  }

  lemma TicketsKeptByWorker(s: State, w: nat)
    requires Enabled(s, WorkerStep(w)) && Tickets(s)
    ensures Tickets(Next(s, WorkerStep(w)))
  {
    hide Enabled, Next, MovesTicket, CompletedOnce, HeldOpen, HeldByOne, AllAccounted;
    var s' := Next(s, WorkerStep(w));
    WorkerMovesTicket(s, w);
    CompletedOnceKept(s, s', w);
    HeldOpenKept(s, s', w);
    HeldByOneKept(s, s', w);
    AllAccountedKept(s, s', w);
  }

  lemma TicketsKept(s: State, step: Step)
    requires Enabled(s, step) && Tickets(s)
    ensures Tickets(Next(s, step))
  {
    hide Enabled, Next, TicketOf;
    if step.WorkerStep? {
      TicketsKeptByWorker(s, step.w);
    } else {
      TicketsOfOthers(s, step);
      var s' := Next(s, step);
      OthersOnlyWake(s, step);
      assert forall v: nat, t: nat :: HeldBy(s', v, t) <==> HeldBy(s, v, t);
    }
  }

  lemma {:induction false} CountUpdate(pcs: seq<WorkerPc>, w: nat, pc: WorkerPc, p: WorkerPc -> bool)
    requires w < |pcs|
    ensures Count(pcs[w := pc], p) == Count(pcs, p) - (if p(pcs[w]) then 1 else 0) + (if p(pc) then 1 else 0)
  {
    if w > 0 {
      assert pcs[w := pc][1..] == pcs[1..][w - 1 := pc];
      CountUpdate(pcs[1..], w - 1, pc, p);
    } else {
      assert pcs[w := pc][1..] == pcs[1..];
    }
  }

  lemma {:induction false} CountSame(pcs: seq<WorkerPc>, pcs': seq<WorkerPc>, p: WorkerPc -> bool)
    requires |pcs| == |pcs'| && forall i :: 0 <= i < |pcs| ==> p(pcs[i]) == p(pcs'[i])
    ensures Count(pcs, p) == Count(pcs', p)
  {
    if pcs != [] {
      CountSame(pcs[1..], pcs'[1..], p);
    }
  }

  lemma {:induction false} CountAll(pcs: seq<WorkerPc>, p: WorkerPc -> bool)
    ensures Count(pcs, p) <= |pcs|
    ensures Count(pcs, p) == |pcs| <==> forall i :: 0 <= i < |pcs| ==> p(pcs[i])
  {
    if pcs != [] {
      CountAll(pcs[1..], p);
      assert forall i :: 1 <= i < |pcs| ==> pcs[i] == pcs[1..][i - 1];
      if forall i :: 0 <= i < |pcs[1..]| ==> p(pcs[1..][i]) {
        assert forall i :: 1 <= i < |pcs| ==> p(pcs[i]);
      }
    }
  }

  lemma CountersWhenDone(s: State, w: nat)
    requires w < |s.workers| && s.workers[w] == NotifyAll && Counters(s)
    ensures Counters(WorkerNext(s, w))
  {
    hide Count, Sleeps;
    var woken := WakeAll(s).workers;
    CountSame(s.workers, woken, Started);
    CountSame(s.workers, woken, Finished);
    CountUpdate(woken, w, Done, Started);
    CountUpdate(woken, w, Done, Finished);
  }

  lemma CountersKeptByWorker(s: State, w: nat)
    requires w < |s.workers| && s.workers[w] != NotifyAll && Counters(s)
    ensures Counters(WorkerNext(s, w))
  {
    hide Count, Sleeps;
    var s' := WorkerNext(s, w);
    CountUpdate(s.workers, w, s'.workers[w], Started);
    CountUpdate(s.workers, w, s'.workers[w], Finished);
    assert s'.workers == s.workers[w := s'.workers[w]];
  }

  lemma CountersKept(s: State, step: Step)
    requires Enabled(s, step) && Counters(s)
    ensures Counters(Next(s, step))
  {
    hide Count, NotifyChoice, Sleeps, WorkerNext, ClientNext, CloserNext, WaiterNext, Wake;
    match step
    case WorkerStep(w) =>
      if s.workers[w] == NotifyAll {
        CountersWhenDone(s, w);
      } else {
        CountersKeptByWorker(s, w);
      }
    case _ =>
      OthersOnlyWake(s, step);
      CountSame(s.workers, Next(s, step).workers, Started);
      CountSame(s.workers, Next(s, step).workers, Finished);
  }

  lemma AllStarted(s: State)
    requires Counters(s) && s.numActive >= |s.workers|
    ensures forall w :: 0 <= w < |s.workers| ==> Started(s.workers[w])
  {
    hide Count;
    CountAll(s.workers, Started);
  }

  lemma StopAfterStartKeptByWorker(s: State, w: nat)
    requires w < |s.workers| && StopAfterStart(s)
    ensures StopAfterStart(WorkerNext(s, w))
  {
    WorkerFrame(s, w);
    hide WorkerNext;
  }

  lemma StopAfterStartKeptByCloser(s: State)
    requires Enabled(s, CloserStep) && Counters(s) && StopAfterStart(s)
    ensures StopAfterStart(CloserNext(s))
  {
    hide NotifyChoice, Sleeps, Counters;
    if s.numActive >= |s.workers| {
      AllStarted(s);
    }
  }

  lemma StopAfterStartKept(s: State, step: Step)
    requires Enabled(s, step) && Counters(s) && StopAfterStart(s)
    ensures StopAfterStart(Next(s, step))
  {
    hide Counters, CloserNext;
    match step
    case WorkerStep(w) => StopAfterStartKeptByWorker(s, w);
    case CloserStep => StopAfterStartKeptByCloser(s);
    case _ => OthersOnlyWake(s, step);
  }

  lemma InvariantKept(s: State, step: Step)
    requires Enabled(s, step) && Invariant(s)
    ensures Invariant(Next(s, step))
  {
    hide Enabled, Next, Exclusion, Fifo, Tickets, Counters, StopAfterStart;
    ExclusionKept(s, step);
    FifoKept(s, step);
    TicketsKept(s, step);
    CountersKept(s, step);
    StopAfterStartKept(s, step);
  }

  lemma {:induction false} CountNone(pcs: seq<WorkerPc>, p: WorkerPc -> bool)
    requires forall i :: 0 <= i < |pcs| ==> !p(pcs[i])
    ensures Count(pcs, p) == 0
  {
    if pcs != [] {
      CountNone(pcs[1..], p);
    }
  }

  lemma InvariantStarts(size: nat, clients: nat)
    ensures Invariant(Init(size, clients))
  {
    var s := Init(size, clients);
    CountNone(s.workers, Started);
    CountNone(s.workers, Finished);
  }

  /** Over every interleaving: accepted jobs are, in acceptance order, the popped ones followed by the
      queue; every popped job is with one worker or has run once; and the stop flag is up only after
      every worker has started. */
  lemma {:induction false} EveryRunKeepsInvariant(s: State, steps: seq<Step>)
    requires Invariant(s) && Possible(s, steps)
    ensures Invariant(Run(s, steps))
    decreases |steps|
  {
    hide Enabled, Next, Invariant;
    if steps != [] {
      InvariantKept(s, steps[0]);
      EveryRunKeepsInvariant(Next(s, steps[0]), steps[1..]);
    }
  }

  // ----- Under the callers' discipline

  predicate BeyondLoop(pc: WorkerPc) { pc.Leaving? || pc.Finishing? || pc.NotifyAll? || pc.Done? }

  predicate SawStop(pc: WorkerPc) { pc.TestEmpty? || pc.CheckSize? || pc.RecheckSize? }

  /** Once close has begun the queue only shrinks, and a worker leaves its loop only when the pool is
      stopping and the queue is empty. */
  ghost predicate Drained(s: State) {
    && (s.closer != NotClosing ==> AllIdle(s.clients))
    && (forall w :: 0 <= w < |s.workers| && SawStop(s.workers[w]) ==> s.stopping)
    && (forall w :: 0 <= w < |s.workers| && BeyondLoop(s.workers[w]) ==> s.stopping && s.queue == [])
  }

  lemma LeavingMeansDrained(s: State, w: nat)
    requires Enabled(s, WorkerStep(w)) && Drained(s)
    ensures var s' := WorkerNext(s, w);
      && (SawStop(s'.workers[w]) ==> s.stopping)
      && (BeyondLoop(s'.workers[w]) ==> s.stopping && s.queue == [])
      && (s.queue == [] ==> s'.queue == [])
  {
    GoesDrained(s.workers[w], s.stopping, s.queue, |s.dequeued|);
    hide NotifyChoice, Sleeps, WorkerGoes;
  }

  lemma GoesDrained(pc: WorkerPc, stopping: bool, queue: seq<Job>, ticket: nat)
    requires SawStop(pc) || BeyondLoop(pc) ==> stopping
    requires BeyondLoop(pc) ==> queue == []
    ensures var pc' := WorkerGoes(pc, stopping, queue, ticket);
      (SawStop(pc') ==> stopping) && (BeyondLoop(pc') ==> stopping && queue == [])
  {
  }

  lemma DrainedKept(s: State, step: Step)
    requires Enabled(s, step) && Disciplined(s, step) && StopAfterStart(s) && Drained(s)
    ensures Drained(Next(s, step))
  {
    if step.WorkerStep? {
      WorkerFrame(s, step.w);
      LeavingMeansDrained(s, step.w);
      hide Enabled, WorkerNext;
    } else {
      OthersOnlyWake(s, step);
      OthersDrained(s, step);
      hide Enabled, Next;
    }
  }

  predicate AllIdle(clients: seq<ClientPc>) { forall c :: 0 <= c < |clients| ==> clients[c] == Idle }

  /** What the steps of the other threads do to what Drained speaks of. */
  lemma OthersDrained(s: State, step: Step)
    requires Enabled(s, step) && Disciplined(s, step) && StopAfterStart(s) && !step.WorkerStep?
    requires s.closer != NotClosing ==> AllIdle(s.clients)
    ensures var s' := Next(s, step);
      && (s'.closer != NotClosing ==> AllIdle(s'.clients))
      && (s.stopping ==> s'.stopping && (s.queue == [] ==> s'.queue == []))
  {
    if step.ClientStep? {
      hide AllIdle;
      IdleClient(s.clients, step.c);
    } else {
      hide NotifyChoice;
    }
  }

  lemma IdleClient(clients: seq<ClientPc>, c: nat)
    requires c < |clients|
    ensures AllIdle(clients) ==> clients[c] == Idle
  {
  }

  lemma {:induction false} DisciplinedRunKeeps(s: State, steps: seq<Step>)
    requires Invariant(s) && Drained(s) && DisciplinedRun(s, steps)
    ensures Possible(s, steps) && Invariant(Run(s, steps)) && Drained(Run(s, steps))
    decreases |steps|
  {
    hide Enabled, Next, Drained, Exclusion, Fifo, Tickets, Counters, StopAfterStart;
    if steps != [] {
      InvariantKept(s, steps[0]);
      DrainedKept(s, steps[0]);
      DisciplinedRunKeeps(Next(s, steps[0]), steps[1..]);
    }
  }

  /** log lists each of 0..n exactly once. */
  ghost predicate EachOnce(log: seq<nat>, n: nat) {
    && (forall i :: 0 <= i < |log| ==> log[i] < n)
    && (forall i, j :: 0 <= i < j < |log| ==> log[i] != log[j])
    && (forall t: nat :: t < n ==> t in log)
  }

  lemma AllFinished(s: State)
    requires Counters(s) && s.numFinished >= |s.workers|
    ensures forall w :: 0 <= w < |s.workers| ==> Finished(s.workers[w])
  {
    hide Count;
    CountAll(s.workers, Finished);
  }

  /** When wait has returned, on a pool with a worker whose callers kept the discipline: the queue is
      empty and every accepted job was popped in order and has run to completion exactly once. */
  lemma WaitReturnsWhenAllDone(size: nat, clients: nat, steps: seq<Step>)
    requires size > 0 && DisciplinedRun(Init(size, clients), steps)
    ensures Possible(Init(size, clients), steps)
    ensures var s := Run(Init(size, clients), steps);
      s.waiter == WaitReturned ==> s.queue == [] && s.dequeued == s.accepted && EachOnce(s.completed, |s.accepted|)
  {
    hide Enabled, Next, Exclusion, Tickets, Counters, EachOnce;
    InvariantStarts(size, clients);
    DisciplinedRunKeeps(Init(size, clients), steps);
    RunKeepsWorkers(Init(size, clients), steps);
    var s := Run(Init(size, clients), steps);
    if s.waiter == WaitReturned {
      AllRan(s);
      assert Finished(s.workers[0]) && BeyondLoop(s.workers[0]);
    }
  }

  /** When wait has returned every popped job has run exactly once. */
  lemma AllRan(s: State)
    requires Invariant(s) && s.waiter == WaitReturned
    ensures forall w :: 0 <= w < |s.workers| ==> Finished(s.workers[w])
    ensures EachOnce(s.completed, |s.dequeued|)
  {
    hide Exclusion, Fifo, Count;
    AllFinished(s);
    assert forall w: nat, t: nat :: !HeldBy(s, w, t);
  }

  lemma {:induction false} RunKeepsWorkers(s: State, steps: seq<Step>)
    requires Possible(s, steps)
    ensures |Run(s, steps).workers| == |s.workers|
    decreases |steps|
  {
    hide Enabled, Next;
    if steps != [] {
      TicketsOfOthers(s, steps[0]);
      RunKeepsWorkers(Next(s, steps[0]), steps[1..]);
    }
  }

  /** A finished worker means stopping and an empty queue from then on, whatever happens next. */
  lemma {:induction false} FinishedStaysDrained(s: State, w: nat, steps: seq<Step>)
    requires Invariant(s) && Drained(s) && w < |s.workers| && Finished(s.workers[w])
    requires DisciplinedRun(s, steps)
    ensures Possible(s, steps)
    ensures var s' := Run(s, steps);
      s'.stopping && s'.queue == [] && |s'.workers| == |s.workers| && Finished(s'.workers[w])
    decreases |steps|
  {
    hide Enabled, Next, Exclusion, Fifo, Tickets, Counters, StopAfterStart;
    if steps != [] {
      InvariantKept(s, steps[0]);
      DrainedKept(s, steps[0]);
      FinishedStays(s, w, steps[0]);
      FinishedStaysDrained(Next(s, steps[0]), w, steps[1..]);
    } else {
      assert BeyondLoop(s.workers[w]);
    }
  }

  lemma FinishedStays(s: State, w: nat, step: Step)
    requires Enabled(s, step) && w < |s.workers| && Finished(s.workers[w])
    ensures var s' := Next(s, step); |s'.workers| == |s.workers| && Finished(s'.workers[w])
  {
    if step.WorkerStep? {
      WorkerFrame(s, step.w);
      hide NotifyChoice, Sleeps;
    } else {
      OthersOnlyWake(s, step);
      hide Enabled, Next;
    }
  }

  // ----- When a step faults

  /** A fault is a pop of an empty queue by a worker that came out of the wait: the test after the
      wait looks for stopping together with empty, never for empty alone. */
  lemma FaultsExactly(s: State, step: Step)
    requires Enabled(s, step) && Exclusion(s) && Fifo(s)
    ensures Next(s, step).fault
      <==> step.WorkerStep? && s.workers[step.w] == Front(true) && s.queue == []
  {
    if step.WorkerStep? {
      hide NotifyChoice, Sleeps, Exclusion;
    } else {
      OthersOnlyWake(s, step);
      hide Next, NotifyChoice;
    }
  }
}
