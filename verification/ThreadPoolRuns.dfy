/** The thread pool without the callers' discipline: which jobs are left behind, and when a worker can
    pop an empty queue. */
module ThreadPoolRuns {
  import opened ThreadPool
  import opened Wrappers

  // ----- The jobs no worker takes

  predicate AllBeyond(s: State) { forall w :: 0 <= w < |s.workers| ==> BeyondLoop(s.workers[w]) }

  /** The job a step pushes. */
  function Pushed(s: State, step: Step): seq<Job> {
    if step.ClientStep? && step.c < |s.clients| && s.clients[step.c].EnqueuePush? then [s.clients[step.c].job] else []
  }

  /** The jobs a run pushes after the last worker has left its loop. */
  ghost function LatePushes(s: State, steps: seq<Step>): seq<Job>
    requires Possible(s, steps)
    decreases |steps|
  {
    if steps == [] then []
    else (if AllBeyond(s) then Pushed(s, steps[0]) else []) + LatePushes(Next(s, steps[0]), steps[1..])
  }

  /** A worker leaves its loop only on an empty queue, and once all have left nothing is popped. */
  lemma BeyondStep(s: State, step: Step)
    requires Enabled(s, step)
    ensures AllBeyond(s) ==> AllBeyond(Next(s, step)) && Next(s, step).queue == s.queue + Pushed(s, step)
    ensures !AllBeyond(s) && AllBeyond(Next(s, step)) ==> Next(s, step).queue == []
  {
    if step.WorkerStep? {
      WorkerFrame(s, step.w);
      LeavesOnEmpty(s, step.w);
      hide Enabled, WorkerNext;
    } else {
      OthersOnlyWake(s, step);
      OthersQueue(s, step);
      hide Enabled, Next;
    }
  }

  lemma LeavesOnEmpty(s: State, w: nat)
    requires Enabled(s, WorkerStep(w))
    ensures var s' := WorkerNext(s, w);
      && (BeyondLoop(s.workers[w]) ==> BeyondLoop(s'.workers[w]) && s'.queue == s.queue)
      && (!BeyondLoop(s.workers[w]) && BeyondLoop(s'.workers[w]) ==> s'.queue == [])
  {
    hide NotifyChoice, Sleeps;
  }

  lemma OthersQueue(s: State, step: Step)
    requires Enabled(s, step) && !step.WorkerStep?
    ensures Next(s, step).queue == s.queue + Pushed(s, step)
  {
    hide NotifyChoice;
    assert s.queue + [] == s.queue;
  }

  lemma {:induction false} LateQueue(s: State, steps: seq<Step>)
    requires Possible(s, steps)
    ensures var before := if AllBeyond(s) then s.queue else [];
      AllBeyond(Run(s, steps)) ==> Run(s, steps).queue == before + LatePushes(s, steps)
    decreases |steps|
  {
    hide Enabled, Next, AllBeyond, Pushed;
    if steps == [] {
      assert s.queue + [] == s.queue;
    } else {
      var s' := Next(s, steps[0]);
      BeyondStep(s, steps[0]);
      LateQueue(s', steps[1..]);
      var now, later := Pushed(s, steps[0]), LatePushes(s', steps[1..]);
      assert s.queue + now + later == s.queue + (now + later);
      assert [] + later == later;
    }
  }

  /** In every interleaving, disciplined or not: when all workers have left their loop, the jobs left in
      the queue are exactly those pushed after the last one left. */
  lemma JobsLeftBehind(size: nat, clients: nat, steps: seq<Step>)
    requires Possible(Init(size, clients), steps)
    ensures var s := Run(Init(size, clients), steps);
      AllBeyond(s) ==> s.queue == LatePushes(Init(size, clients), steps)
  {
    hide Enabled, Next;
    LateQueue(Init(size, clients), steps);
    assert Init(size, clients).queue == [];
  }

  /** When wait has returned, disciplined or not: every accepted job was popped in order and ran exactly
      once, or was pushed after the last worker left its loop and stays in the queue; so the queue is
      empty if and only if there was no such push. */
  lemma WaitLeavesLateJobs(size: nat, clients: nat, steps: seq<Step>)
    requires Possible(Init(size, clients), steps)
    ensures var s := Run(Init(size, clients), steps);
      s.waiter == WaitReturned ==>
        var late := LatePushes(Init(size, clients), steps);
        && s.accepted == s.dequeued + late && EachOnce(s.completed, |s.dequeued|)
        && s.queue == late && (s.queue == [] <==> late == [])
  {
    hide Enabled, Next, Exclusion, Tickets, Counters, EachOnce, LatePushes;
    InvariantStarts(size, clients);
    EveryRunKeepsInvariant(Init(size, clients), steps);
    JobsLeftBehind(size, clients, steps);
    var s := Run(Init(size, clients), steps);
    if s.waiter == WaitReturned {
      AllRan(s);
      assert AllBeyond(s);
    }
  }

  // ----- Runs

  lemma {:induction false} RunExtends(s: State, steps: seq<Step>, step: Step)
    requires Possible(s, steps) && Enabled(Run(s, steps), step)
    ensures Possible(s, steps + [step]) && Run(s, steps + [step]) == Next(Run(s, steps), step)
    decreases |steps|
  {
    hide Enabled, Next;
    if steps == [] {
      assert (steps + [step])[1..] == [];
    } else {
      assert (steps + [step])[1..] == steps[1..] + [step];
      RunExtends(Next(s, steps[0]), steps[1..], step);
    }
  }

  /** Reachable without spurious wake-ups. */
  ghost predicate Reaches(s: State, s': State) {
    exists steps :: Possible(s, steps) && Quiet(steps) && Run(s, steps) == s'
  }

  ghost predicate Quiet(steps: seq<Step>) {
    forall i :: 0 <= i < |steps| ==> !steps[i].Spurious?
  }

  lemma ReachesNext(s: State, s': State, step: Step)
    requires Reaches(s, s') && Enabled(s', step) && !step.Spurious?
    ensures Reaches(s, Next(s', step))
  {
    hide Enabled, Next;
    var steps :| Possible(s, steps) && Quiet(steps) && Run(s, steps) == s';
    assert Quiet(steps + [step]);
    RunExtends(s, steps, step);
  }

  lemma ReachesStart(s: State)
    ensures Reaches(s, s)
  {
    assert Possible(s, []) && Quiet([]) && Run(s, []) == s;
  }

  /** One worker of a fresh pool gets to its first loop test. */
  lemma WorkerStarts(s0: State, s: State, w: nat)
    requires Reaches(s0, s) && !s.fault && w < |s.workers| && s.workers[w] == Unstarted && s.startHolder == None
    requires s.closer == NotClosing
    ensures Reaches(s0, s.(workers := s.workers[w := TestStop], numActive := s.numActive + 1))
  {
    hide Reaches, NotifyChoice, Sleeps;
    var s1 := s.(workers := s.workers[w := StartLock], numActive := s.numActive + 1);
    ReachesNext(s0, s, WorkerStep(w));
    assert Next(s, WorkerStep(w)) == s1;
    var s2 := s1.(workers := s.workers[w := StartNotify], startHolder := Some(Worker(w)));
    ReachesNext(s0, s1, WorkerStep(w));
    assert Next(s1, WorkerStep(w)) == s2;
    var s3 := s.(workers := s.workers[w := TestStop], numActive := s.numActive + 1);
    ReachesNext(s0, s2, WorkerStep(w));
    assert Next(s2, WorkerStep(w)) == s3;
  }

  predicate JobLost(s: State, job: Job) {
    !s.fault && s.waiter == WaitReturned && s.accepted == [job] && s.queue == [job] && s.completed == []
  }

  /** close sets the flag without the mutex: an enqueue that has passed its test can still be accepted,
      after the last worker has gone.  wait returns and the job never runs. */
  lemma OverlappingCloseLosesAJob(job: Job)
    ensures exists s :: Reaches(Init(1, 1), s) && JobLost(s, job)
  {
    hide Reaches, NotifyChoice, Sleeps;
    var s0 := Init(1, 1);
    ReachesStart(s0);
    WorkerStarts(s0, s0, 0);
    var s1 := s0.(workers := [TestStop], numActive := 1);
    assert s0.workers[0 := TestStop] == [TestStop];
    var s2 := s1.(clients := [EnqueueLock(job)]);
    ReachesNext(s0, s1, BeginEnqueue(0, job));
    assert Next(s1, BeginEnqueue(0, job)) == s2;
    var s3 := s2.(clients := [EnqueueCheck(job)], poolHolder := Some(Client(0)));
    ReachesNext(s0, s2, ClientStep(0, None));
    assert Next(s2, ClientStep(0, None)) == s3;
    var s4 := s3.(clients := [EnqueuePush(job)]);
    ReachesNext(s0, s3, ClientStep(0, None));
    assert Next(s3, ClientStep(0, None)) == s4;
    ReachesNext(s0, s4, BeginClose);
    var s5 := s4.(closer := CloseTest);
    ReachesNext(s0, s5, CloserStep);
    var s6 := s4.(closer := CloseSet);
    assert Next(s5, CloserStep) == s6;
    ReachesNext(s0, s6, CloserStep);
    var s7 := s4.(closer := CloseNotify, stopping := true);
    assert Next(s6, CloserStep) == s7;
    LostJobEnds(s0, s7, job);
  }

  lemma LostJobEnds(s0: State, s7: State, job: Job)
    requires Reaches(s0, s7) && !s7.fault && s7.stopping && s7.workers == [TestStop] && s7.numFinished == 0
    requires s7.clients == [EnqueuePush(job)] && s7.queue == [] && s7.accepted == [] && s7.completed == []
    requires s7.waiter == NotWaiting
    ensures exists s :: Reaches(s0, s) && JobLost(s, job)
  {
    hide Reaches, NotifyChoice, Sleeps;
    ReachesNext(s0, s7, WorkerStep(0));
    var s8 := s7.(workers := [TestEmpty]);
    assert Next(s7, WorkerStep(0)) == s8;
    ReachesNext(s0, s8, WorkerStep(0));
    var s9 := s7.(workers := [Finishing]);
    assert Next(s8, WorkerStep(0)) == s9;
    ReachesNext(s0, s9, WorkerStep(0));
    var s10 := s7.(workers := [NotifyAll], numFinished := 1);
    assert Next(s9, WorkerStep(0)) == s10;
    ReachesNext(s0, s10, ClientStep(0, None));
    var s11 := s10.(clients := [EnqueueUnlock], queue := [job], accepted := [job]);
    assert Next(s10, ClientStep(0, None)) == s11;
    ReachesNext(s0, s11, BeginWait);
    var s12 := s11.(waiter := WaitTest);
    ReachesNext(s0, s12, WaiterStep);
    var s13 := s11.(waiter := WaitReturned);
    assert Next(s12, WaiterStep) == s13;
  }

  /** A worker finds nothing to do and waits. */
  lemma WorkerWaits(s0: State, s: State, w: nat)
    requires Reaches(s0, s) && !s.fault && w < |s.workers| && s.workers[w] == TestStop
    requires s.poolHolder == None && !s.stopping && s.queue == []
    ensures Reaches(s0, s.(workers := s.workers[w := Waiting]))
  {
    hide Reaches, NotifyChoice, Sleeps;
    var s1 := s.(workers := s.workers[w := Lock]);
    ReachesNext(s0, s, WorkerStep(w));
    assert Next(s, WorkerStep(w)) == s1;
    var s2 := s.(workers := s.workers[w := Check], poolHolder := Some(Worker(w)));
    ReachesNext(s0, s1, WorkerStep(w));
    assert Next(s1, WorkerStep(w)) == s2;
    var s3 := s.(workers := s.workers[w := CheckEmpty], poolHolder := Some(Worker(w)));
    ReachesNext(s0, s2, WorkerStep(w));
    assert Next(s2, WorkerStep(w)) == s3;
    ReachesNext(s0, s3, WorkerStep(w));
    assert Next(s3, WorkerStep(w)) == s.(workers := s.workers[w := Waiting]);
  }

  /** A worker takes the only job. */
  lemma WorkerTakes(s0: State, s: State, w: nat, job: Job)
    requires Reaches(s0, s) && !s.fault && w < |s.workers| && s.workers[w] == TestStop
    requires s.poolHolder == None && !s.stopping && s.queue == [job] && s.dequeued == []
    ensures Reaches(s0, s.(workers := s.workers[w := Running(0)], queue := [], dequeued := [job]))
  {
    hide Reaches, NotifyChoice, Sleeps;
    var s1 := s.(workers := s.workers[w := Lock]);
    ReachesNext(s0, s, WorkerStep(w));
    assert Next(s, WorkerStep(w)) == s1;
    var held := s.(poolHolder := Some(Worker(w)));
    var s2 := held.(workers := s.workers[w := Check]);
    ReachesNext(s0, s1, WorkerStep(w));
    assert Next(s1, WorkerStep(w)) == s2;
    var s3 := held.(workers := s.workers[w := CheckEmpty]);
    ReachesNext(s0, s2, WorkerStep(w));
    assert Next(s2, WorkerStep(w)) == s3;
    var s4 := held.(workers := s.workers[w := Front(false)]);
    ReachesNext(s0, s3, WorkerStep(w));
    assert Next(s3, WorkerStep(w)) == s4;
    WorkerPops(s0, held, s4, w, job);
    assert s.(workers := s.workers[w := Running(0)], queue := [], dequeued := [job])
        == held.(workers := s.workers[w := Running(0)], queue := [], dequeued := [job], poolHolder := None);
  }

  lemma WorkerPops(s0: State, held: State, s4: State, w: nat, job: Job)
    requires w < |held.workers| && s4 == held.(workers := held.workers[w := Front(false)])
    requires Reaches(s0, s4) && !s4.fault && held.queue == [job] && held.dequeued == []
    ensures var workers := held.workers[w := Running(0)];
      Reaches(s0, held.(workers := workers, queue := [], dequeued := [job], poolHolder := None))
  {
    hide Reaches, NotifyChoice, Sleeps;
    var s5 := held.(workers := held.workers[w := PopFront(job)]);
    ReachesNext(s0, s4, WorkerStep(w));
    assert Next(s4, WorkerStep(w)) == s5;
    var s6 := held.(workers := held.workers[w := Unlock(0)], queue := [], dequeued := [job]);
    ReachesNext(s0, s5, WorkerStep(w));
    assert Next(s5, WorkerStep(w)) == s6;
    ReachesNext(s0, s6, WorkerStep(w));
    assert Next(s6, WorkerStep(w)) == s6.(workers := held.workers[w := Running(0)], poolHolder := None);
  }

  /** A client's enqueue on a pool that is not stopping, up to the notification. */
  lemma ClientPushes(s0: State, s: State, c: nat, job: Job)
    requires Reaches(s0, s) && !s.fault && c < |s.clients| && s.clients[c] == Idle
    requires s.poolHolder == None && !s.stopping && s.queue == [] && s.accepted == []
    ensures Reaches(s0, s.(clients := s.clients[c := EnqueueNotify], queue := [job], accepted := [job]))
  {
    hide Reaches, NotifyChoice;
    var s1 := s.(clients := s.clients[c := EnqueueLock(job)]);
    ReachesNext(s0, s, BeginEnqueue(c, job));
    assert Next(s, BeginEnqueue(c, job)) == s1;
    var held := s.(poolHolder := Some(Client(c)));
    var s2 := held.(clients := s.clients[c := EnqueueCheck(job)]);
    ReachesNext(s0, s1, ClientStep(c, None));
    assert Next(s1, ClientStep(c, None)) == s2;
    var s3 := held.(clients := s.clients[c := EnqueuePush(job)]);
    ReachesNext(s0, s2, ClientStep(c, None));
    assert Next(s2, ClientStep(c, None)) == s3;
    var s4 := held.(clients := s.clients[c := EnqueueUnlock], queue := [job], accepted := [job]);
    ReachesNext(s0, s3, ClientStep(c, None));
    assert Next(s3, ClientStep(c, None)) == s4;
    ReachesNext(s0, s4, ClientStep(c, None));
    var s5 := s.(clients := s.clients[c := EnqueueNotify], queue := [job], accepted := [job]);
    assert Next(s4, ClientStep(c, None)) == s5;
  }

  /** A worker that was notified while the queue is empty pops it. */
  lemma WokenFaults(s0: State, s: State, w: nat)
    requires Reaches(s0, s) && !s.fault && w < |s.workers| && s.workers[w] == Woken
    requires s.poolHolder == None && !s.stopping && s.queue == []
    ensures exists s' :: Reaches(s0, s') && s'.fault
  {
    hide Reaches, NotifyChoice, Sleeps;
    var s1 := s.(workers := s.workers[w := Recheck], poolHolder := Some(Worker(w)));
    ReachesNext(s0, s, WorkerStep(w));
    assert Next(s, WorkerStep(w)) == s1;
    var s2 := s1.(workers := s.workers[w := Front(true)]);
    ReachesNext(s0, s1, WorkerStep(w));
    assert Next(s1, WorkerStep(w)) == s2;
    ReachesNext(s0, s2, WorkerStep(w));
    assert Next(s2, WorkerStep(w)).fault;
  }

  // ----- When a pool can fault

  /** One worker and one client are enough, with no spurious wake-up: the worker takes and runs the job
      between the client's unlock and its notification, waits, and the notification wakes it to an empty
      queue. */
  lemma LateNotificationFaults(size: nat, clients: nat, job: Job)
    requires size > 0 && clients > 0
    ensures exists s :: Reaches(Init(size, clients), s) && s.fault
  {
    hide Reaches, NotifyChoice;
    var s0 := Init(size, clients);
    ReachesStart(s0);
    WorkerStarts(s0, s0, 0);
    var s1 := s0.(workers := s0.workers[0 := TestStop], numActive := 1);
    ClientPushes(s0, s1, 0, job);
    var s2 := s1.(clients := s1.clients[0 := EnqueueNotify], queue := [job], accepted := [job]);
    WorkerTakes(s0, s2, 0, job);
    var s3 := s2.(workers := s2.workers[0 := Running(0)], queue := [], dequeued := [job]);
    ReachesNext(s0, s3, WorkerStep(0));
    var s4 := s3.(workers := s3.workers[0 := TestStop], completed := [0]);
    assert Next(s3, WorkerStep(0)) == s4;
    WorkerWaits(s0, s4, 0);
    var s5 := s4.(workers := s4.workers[0 := Waiting]);
    NotifiesWorker(s0, s5, 0, 0);
    WokenFaults(s0, s5.(workers := s5.workers[0 := Woken], clients := s5.clients[0 := Idle]), 0);
  }

  lemma NotifiesWorker(s0: State, s: State, c: nat, w: nat)
    requires Reaches(s0, s) && !s.fault && c < |s.clients| && s.clients[c] == EnqueueNotify
    requires w < |s.workers| && s.workers[w] == Waiting
    ensures Reaches(s0, s.(workers := s.workers[w := Woken], clients := s.clients[c := Idle]))
  {
    hide Reaches;
    ReachesNext(s0, s, ClientStep(c, Some(Worker(w))));
    assert Next(s, ClientStep(c, Some(Worker(w))))
      == s.(workers := s.workers[w := Woken], clients := s.clients[c := Idle]);
  }

  /** Where a worker may stand in a pool nobody gives a job: woken only to stop. */
  predicate Unfed(pc: WorkerPc, stopping: bool) {
    !pc.Front? && !pc.PopFront? && (pc == Woken || pc == Recheck || SawStop(pc) || BeyondLoop(pc) ==> stopping)
  }

  ghost predicate NoClients(s: State) {
    && s.clients == [] && s.queue == [] && !s.fault && (s.closer == CloseNotify ==> s.stopping)
    && forall w :: 0 <= w < |s.workers| ==> Unfed(s.workers[w], s.stopping)
  }

  lemma UnfedGoes(pc: WorkerPc, stopping: bool, ticket: nat)
    requires Unfed(pc, stopping)
    ensures Unfed(WorkerGoes(pc, stopping, [], ticket), stopping)
  {
  }

  lemma UnfedEffect(s: State, w: nat)
    requires Enabled(s, WorkerStep(w)) && NoClients(s)
    ensures var s' := WorkerNext(s, w);
      && s'.queue == [] && !s'.fault && s'.workers[w] == WorkerGoes(s.workers[w], s.stopping, [], |s.dequeued|)
      && forall v :: 0 <= v < |s.workers| && v != w && s'.workers[v] != s.workers[v] ==> s.stopping
  {
    hide NotifyChoice, Sleeps, WorkerGoes;
  }

  lemma NoClientsKeptByWorker(s: State, w: nat)
    requires Enabled(s, WorkerStep(w)) && NoClients(s)
    ensures NoClients(WorkerNext(s, w))
  {
    UnfedEffect(s, w);
    WorkerFrame(s, w);
    UnfedGoes(s.workers[w], s.stopping, |s.dequeued|);
    hide Enabled, WorkerNext, WorkerGoes;
  }

  lemma NoClientsEffect(s: State, step: Step)
    requires Enabled(s, step) && !step.WorkerStep? && !step.Spurious? && NoClients(s)
    ensures var s' := Next(s, step);
      && s'.clients == [] && s'.queue == [] && (s'.closer == CloseNotify ==> s'.stopping)
      && (s.stopping ==> s'.stopping)
      && forall v :: 0 <= v < |s.workers| && s'.workers[v] != s.workers[v] ==> s'.stopping
  {
    if step.CloserStep? {
      CloserEffect(s);
    } else {
      hide NotifyChoice, Sleeps, Unfed, CloserNext;
    }
  }

  lemma CloserEffect(s: State)
    requires s.closer == CloseNotify ==> s.stopping
    ensures var s' := CloserNext(s);
      && s'.clients == s.clients && s'.queue == s.queue && (s'.closer == CloseNotify ==> s'.stopping)
      && (s.stopping ==> s'.stopping)
      && forall v :: 0 <= v < |s.workers| && s'.workers[v] != s.workers[v] ==> s'.stopping
  {
  }

  lemma NoClientsKept(s: State, step: Step)
    requires Enabled(s, step) && !step.Spurious? && NoClients(s)
    ensures NoClients(Next(s, step))
  {
    if step.WorkerStep? {
      NoClientsKeptByWorker(s, step.w);
      hide Enabled, NoClients, WorkerNext;
    } else {
      NoClientsEffect(s, step);
      OthersOnlyWake(s, step);
      hide Enabled, Next;
    }
  }

  lemma {:induction false} NoClientsNoFault(s: State, steps: seq<Step>)
    requires Possible(s, steps) && Quiet(steps) && NoClients(s)
    ensures !Run(s, steps).fault
    decreases |steps|
  {
    hide Enabled, Next;
    if steps != [] {
      NoClientsKept(s, steps[0]);
      NoClientsNoFault(Next(s, steps[0]), steps[1..]);
    }
  }

  lemma {:induction false} NoWorkersNoFault(s: State, steps: seq<Step>)
    requires Possible(s, steps) && s.workers == [] && !s.fault
    ensures !Run(s, steps).fault
    decreases |steps|
  {
    if steps != [] {
      OthersOnlyWake(s, steps[0]);
      hide Enabled, Next;
      NoWorkersNoFault(Next(s, steps[0]), steps[1..]);
    }
  }

  /** Some run of a new pool pops an empty queue. */
  ghost predicate CanFault(size: nat, clients: nat) {
    exists steps :: Possible(Init(size, clients), steps) && Run(Init(size, clients), steps).fault
  }

  /** Some run without a spurious wake-up does. */
  ghost predicate CanFaultQuietly(size: nat, clients: nat) {
    exists steps :: Possible(Init(size, clients), steps) && Quiet(steps) && Run(Init(size, clients), steps).fault
  }

  /** A new pool can come to pop an empty queue exactly when it has a worker and, where wake-ups are never
      spurious, a client. */
  lemma FaultsExactlyWithClients(size: nat, clients: nat)
    ensures CanFaultQuietly(size, clients) <==> size > 0 && clients > 0
    ensures CanFault(size, clients) <==> size > 0
  {
    hide Possible, Run;
    if size == 0 {
      forall steps | Possible(Init(size, clients), steps) ensures !Run(Init(size, clients), steps).fault {
        NoWorkersNoFault(Init(size, clients), steps);
      }
    } else {
      SpuriousWakeupFaults(size, clients);
      if clients == 0 {
        forall steps | Possible(Init(size, clients), steps)
          && Quiet(steps) ensures !Run(Init(size, clients), steps).fault {
          NoClientsNoFault(Init(size, clients), steps);
        }
      } else {
        LateNotificationFaults(size, clients, 0);
      }
    }
  }

  /** With spurious wake-ups a single worker that waits is enough. */
  lemma SpuriousWakeupFaults(size: nat, clients: nat)
    requires size > 0
    ensures CanFault(size, clients)
  {
    hide Enabled, Next, Quiet;
    var s0 := Init(size, clients);
    var s := WaitingState(size, clients);
    var steps :| Possible(s0, steps) && Run(s0, steps) == s;
    SpuriousSteps(s);
    var s1 := s.(workers := s.workers[0 := Woken]);
    var s2 := s1.(workers := s1.workers[0 := Recheck], poolHolder := Some(Worker(0)));
    var s3 := s2.(workers := s2.workers[0 := Front(true)]);
    RunExtends(s0, steps, Spurious(Worker(0)));
    RunExtends(s0, steps + [Spurious(Worker(0))], WorkerStep(0));
    RunExtends(s0, steps + [Spurious(Worker(0))] + [WorkerStep(0)], WorkerStep(0));
    RunExtends(s0, steps + [Spurious(Worker(0))] + [WorkerStep(0)] + [WorkerStep(0)], WorkerStep(0));
  }

  /** The first worker of a new pool has gone to sleep. */
  lemma WaitingState(size: nat, clients: nat) returns (s: State)
    requires size > 0
    ensures exists steps :: Possible(Init(size, clients), steps) && Run(Init(size, clients), steps) == s
    ensures |s.workers| == size && s.workers[0] == Waiting && s.poolHolder == None && !s.stopping && s.queue == []
      && !s.fault
  {
    hide Enabled, Next, Possible, Run;
    var s0 := Init(size, clients);
    ReachesStart(s0);
    WorkerStarts(s0, s0, 0);
    var s1 := s0.(workers := s0.workers[0 := TestStop], numActive := 1);
    WorkerWaits(s0, s1, 0);
    s := s1.(workers := s1.workers[0 := Waiting]);
  }

  lemma SpuriousSteps(s: State)
    requires s.workers != [] && s.workers[0] == Waiting && s.poolHolder == None && !s.stopping && s.queue == []
      && !s.fault
    ensures var s1 := s.(workers := s.workers[0 := Woken]);
      var s2 := s1.(workers := s1.workers[0 := Recheck], poolHolder := Some(Worker(0)));
      var s3 := s2.(workers := s2.workers[0 := Front(true)]);
      && Enabled(s, Spurious(Worker(0))) && Next(s, Spurious(Worker(0))) == s1
      && Enabled(s1, WorkerStep(0)) && Next(s1, WorkerStep(0)) == s2
      && Enabled(s2, WorkerStep(0)) && Next(s2, WorkerStep(0)) == s3
      && Enabled(s3, WorkerStep(0)) && Next(s3, WorkerStep(0)).fault
  {
    hide NotifyChoice;
  }
}
