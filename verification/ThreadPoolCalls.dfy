/** What enqueue, close and the notifications of the thread pool do over whole runs. */
module ThreadPoolCalls {
  import opened ThreadPool
  import opened Wrappers

  // ----- What enqueue accepts

  /** The job this step of client c puts into the queue. */
  function PushOf(s: State, step: Step, c: nat): seq<Job> {
    if step.ClientStep? && step.c == c && c < |s.clients| && s.clients[c].EnqueuePush? then [s.clients[c].job] else []
  }

  /** The jobs of client c put into the queue over a run. */
  ghost function PushedBy(s: State, steps: seq<Step>, c: nat): seq<Job>
    requires Possible(s, steps)
    decreases |steps|
  {
    if steps == [] then [] else PushOf(s, steps[0], c) + PushedBy(Next(s, steps[0]), steps[1..], c)
  }

  /** The jobs client c calls enqueue with. */
  function CalledBy(steps: seq<Step>, c: nat): seq<Job> {
    if steps == [] then []
    else (if steps[0].BeginEnqueue? && steps[0].c == c then [steps[0].job] else []) + CalledBy(steps[1..], c)
  }

  /** The job of a call under way that has not reached the queue. */
  function Pending(pc: ClientPc): seq<Job> {
    match pc
    case EnqueueLock(job) => [job]
    case EnqueueCheck(job) => [job]
    case EnqueuePush(job) => [job]
    case _ => []
  }

  predicate NoPush(s: State) { forall c :: 0 <= c < |s.clients| ==> !s.clients[c].EnqueuePush? }

  /** The step of a client that pushes, if this is one. */
  function Pusher(step: Step): nat { if step.ClientStep? then step.c else 0 }

  /** What a step does to the calls of the clients and to the flag. */
  lemma CallMoves(s: State, step: Step, c: nat)
    requires Enabled(s, step) && c < |s.clients|
    ensures var s' := Next(s, step);
      && |s'.clients| == |s.clients| && (s.stopping ==> s'.stopping)
      && (!s'.stopping ==> Pending(s.clients[c]) + CalledBy([step], c) == PushOf(s, step, c) + Pending(s'.clients[c]))
      && (s.stopping && s'.clients[c].EnqueuePush? ==> s.clients[c].EnqueuePush?)
  {
    hide NotifyChoice, Sleeps;
    if step.WorkerStep? {
      WorkerFrame(s, step.w);
      hide WorkerNext;
    } else if step.ClientStep? {
      ClientMoves(s, step.c, step.wake, c);
      hide ClientNext;
    }
  }

  lemma ClientMoves(s: State, d: nat, wake: Option<Thread>, c: nat)
    requires Enabled(s, ClientStep(d, wake)) && c < |s.clients|
    ensures var s' := ClientNext(s, d, wake);
      && |s'.clients| == |s.clients| && s'.stopping == s.stopping
      && (!s.stopping ==> Pending(s.clients[c]) == PushOf(s, ClientStep(d, wake), c) + Pending(s'.clients[c]))
      && (s.stopping && s'.clients[c].EnqueuePush? ==> s.clients[c].EnqueuePush?)
  {
    hide NotifyChoice;
  }

  lemma AcceptedMoves(s: State, step: Step)
    requires Enabled(s, step)
    ensures Next(s, step).accepted == s.accepted + PushOf(s, step, Pusher(step))
  {
    hide NotifyChoice;
    if step.WorkerStep? {
      WorkerFrame(s, step.w);
    }
  }

  /** On a pool whose stop flag is not up, every call that is not under way any more has put its job into the
      queue once: the jobs a client calls enqueue with are, in order, those it pushed and the one pending. */
  lemma {:induction false} CallsGoThrough(s: State, steps: seq<Step>, c: nat)
    requires Possible(s, steps) && c < |s.clients| && !Run(s, steps).stopping
    ensures |Run(s, steps).clients| == |s.clients|
    ensures Pending(s.clients[c]) + CalledBy(steps, c) == PushedBy(s, steps, c) + Pending(Run(s, steps).clients[c])
    decreases |steps|
  {
    hide Enabled, Next, Pending, PushOf;
    if steps != [] {
      var s', rest := Next(s, steps[0]), steps[1..];
      CallMoves(s, steps[0], c);
      FlagStays(s', rest);
      CallsGoThrough(s', rest, c);
      CalledInTurn(steps, c);
      Regroup(Pending(s.clients[c]), CalledBy([steps[0]], c), CalledBy(rest, c));
      Regroup(PushOf(s, steps[0], c), Pending(s'.clients[c]), CalledBy(rest, c));
      Regroup(PushOf(s, steps[0], c), PushedBy(s', rest, c), Pending(Run(s', rest).clients[c]));
    }
  }

  lemma CalledInTurn(steps: seq<Step>, c: nat)
    requires steps != []
    ensures CalledBy(steps, c) == CalledBy([steps[0]], c) + CalledBy(steps[1..], c)
  {
    assert [steps[0]][1..] == [];
  }

  lemma Regroup<T>(a: seq<T>, b: seq<T>, c: seq<T>)
    ensures a + (b + c) == (a + b) + c
  {
  }

  lemma {:induction false} FlagStays(s: State, steps: seq<Step>)
    requires Possible(s, steps)
    ensures s.stopping ==> Run(s, steps).stopping
    decreases |steps|
  {
    hide Enabled, Next;
    if steps != [] {
      if s.stopping {
        FlagKept(s, steps[0]);
      }
      FlagStays(Next(s, steps[0]), steps[1..]);
    }
  }

  lemma FlagKept(s: State, step: Step)
    requires Enabled(s, step) && s.stopping
    ensures Next(s, step).stopping
  {
    hide NotifyChoice;
    if step.WorkerStep? {
      WorkerFrame(s, step.w);
    }
  }

  /** Once the flag is up and no client stands between its test of it and the push, nothing is accepted any
      more, whatever is called. */
  lemma {:induction false} StoppedAcceptsNothing(s: State, steps: seq<Step>)
    requires Possible(s, steps) && s.stopping && NoPush(s)
    ensures Run(s, steps).accepted == s.accepted
    decreases |steps|
  {
    hide Enabled, Next;
    if steps != [] {
      AcceptedMoves(s, steps[0]);
      FlagKept(s, steps[0]);
      NoPushKept(s, steps[0]);
      StoppedAcceptsNothing(Next(s, steps[0]), steps[1..]);
    }
  }

  lemma NoPushKept(s: State, step: Step)
    requires Enabled(s, step) && s.stopping && NoPush(s)
    ensures NoPush(Next(s, step))
  {
    hide Enabled, Next, PushOf, Pending;
    var s' := Next(s, step);
    ClientsStay(s, step);
    forall c | 0 <= c < |s'.clients|
      ensures !s'.clients[c].EnqueuePush?
    {
      CallMoves(s, step, c);
    }
  }

  lemma ClientsStay(s: State, step: Step)
    requires Enabled(s, step)
    ensures |Next(s, step).clients| == |s.clients|
  {
    hide NotifyChoice;
    if step.WorkerStep? {
      WorkerFrame(s, step.w);
    }
  }

  /** The accepted jobs are the pushes, one after the other. */
  ghost function Pushed(s: State, steps: seq<Step>): seq<Job>
    requires Possible(s, steps)
    decreases |steps|
  {
    if steps == [] then []
    else PushOf(s, steps[0], Pusher(steps[0])) + Pushed(Next(s, steps[0]), steps[1..])
  }

  lemma {:induction false} AcceptedArePushed(s: State, steps: seq<Step>)
    requires Possible(s, steps)
    ensures Run(s, steps).accepted == s.accepted + Pushed(s, steps)
    decreases |steps|
  {
    hide Enabled, Next, PushOf;
    if steps != [] {
      var s' := Next(s, steps[0]);
      AcceptedMoves(s, steps[0]);
      AcceptedArePushed(s', steps[1..]);
      Regroup(s.accepted, PushOf(s, steps[0], Pusher(steps[0])), Pushed(s', steps[1..]));
    }
  }

  // ----- A rejected call

  /** enqueue returns without unlocking when it rejects: the pool's mutex has then no owner that would ever
      unlock it, and in every run from there no thread gets it. */
  lemma {:induction false} RejectionKeepsMutex(s: State, steps: seq<Step>, c: nat)
    requires Possible(s, steps) && Exclusion(s)
    requires c < |s.clients| && s.poolHolder == Some(Client(c)) && !ClientHolds(s.clients[c])
    ensures Run(s, steps).poolHolder == Some(Client(c))
    decreases |steps|
  {
    hide Enabled, Next, Exclusion;
    if steps != [] {
      MutexStays(s, steps[0], c);
      ExclusionKept(s, steps[0]);
      RejectionKeepsMutex(Next(s, steps[0]), steps[1..], c);
    }
  }

  lemma MutexStays(s: State, step: Step, c: nat)
    requires Enabled(s, step) && Exclusion(s)
    requires c < |s.clients| && s.poolHolder == Some(Client(c)) && !ClientHolds(s.clients[c])
    ensures var s' := Next(s, step);
      c < |s'.clients| && s'.poolHolder == Some(Client(c)) && !ClientHolds(s'.clients[c])
  {
    hide NotifyChoice;
    if step.WorkerStep? {
      WorkerFrame(s, step.w);
      HolderMoves(s, step.w);
      hide WorkerNext;
    }
  }

  /** And a call that meets the flag is rejected: the client is back, the mutex stays with it. */
  lemma RejectedWhenStopping(s: State, c: nat, wake: Option<Thread>)
    requires Enabled(s, ClientStep(c, wake)) && s.clients[c].EnqueueCheck? && s.stopping && Exclusion(s)
    ensures var s' := Next(s, ClientStep(c, wake));
      s'.clients[c] == Idle && s'.poolHolder == Some(Client(c)) && s'.queue == s.queue && s'.accepted == s.accepted
  {
  }

  // ----- Who sleeps

  /** Nobody waits on d_poolCond. */
  ghost predicate NoneSleeps(s: State) { forall t :: t != Closer ==> !Sleeps(s, t) }

  /** close's notification, and each finished worker's, wakes everyone. */
  lemma NotifyAllWakes(s: State, step: Step)
    requires Enabled(s, step)
    requires (step == CloserStep && s.closer == CloseNotify)
      || (step.WorkerStep? && s.workers[step.w] == NotifyAll)
    ensures NoneSleeps(Next(s, step))
  {
    hide NotifyChoice;
  }

  /** enqueue's notification wakes one thread if any waits, and nobody else. */
  lemma NotifyOneWakes(s: State, c: nat, wake: Option<Thread>)
    requires Enabled(s, ClientStep(c, wake)) && s.clients[c] == EnqueueNotify
    ensures var s' := Next(s, ClientStep(c, wake));
      (exists t :: t != Closer && Sleeps(s, t))
      ==> exists t :: t != Closer && Sleeps(s, t) && OnlyWakes(s, s', t)
  {
    if exists t :: t != Closer && Sleeps(s, t) {
      assert Sleeps(s, wake.value) && OnlyWakes(s, Next(s, ClientStep(c, wake)), wake.value);
    }
  }

  ghost predicate OnlyWakes(s: State, s': State, t: Thread) {
    !Sleeps(s', t) && forall u :: u != t ==> Sleeps(s', u) == Sleeps(s, u)
  }

  /** A worker that starts lets close look at the counter again. */
  lemma StartWakesCloser(s: State, w: nat)
    requires Enabled(s, WorkerStep(w)) && s.workers[w] == StartNotify
    ensures !Sleeps(Next(s, WorkerStep(w)), Closer)
  {
  }

  /** A worker that will not go to sleep any more once the flag is up: not waiting, and not past the test of the
      flag with an empty queue. */
  predicate StaysAwake(s: State, w: nat) {
    w < |s.workers| && s.workers[w] != Waiting && (s.workers[w] == CheckEmpty ==> s.queue != [])
  }

  lemma AwakeKept(s: State, step: Step, w: nat)
    requires Enabled(s, step) && Exclusion(s) && s.stopping && StaysAwake(s, w)
    ensures StaysAwake(Next(s, step), w)
  {
    hide NotifyChoice;
    if step.WorkerStep? && step.w == w {
      AwakeKeptBySelf(s, w);
    } else if step.WorkerStep? {
      AwakeKeptByWorker(s, step.w, w);
    } else {
      AwakeKeptByOthers(s, step, w);
    }
  }

  lemma AwakeKeptBySelf(s: State, w: nat)
    requires Enabled(s, WorkerStep(w)) && Exclusion(s) && s.stopping && StaysAwake(s, w)
    ensures StaysAwake(WorkerNext(s, w), w)
  {
    hide NotifyChoice, Sleeps;
    QueueMoves(s, w);
    AwakeGoes(s.workers[w], s.stopping, s.queue, |s.dequeued|);
    hide WorkerGoes;
  }

  lemma AwakeKeptByWorker(s: State, v: nat, w: nat)
    requires Enabled(s, WorkerStep(v)) && Exclusion(s) && v != w && StaysAwake(s, w)
    ensures StaysAwake(WorkerNext(s, v), w)
  {
    hide NotifyChoice, Sleeps;
    WorkerFrame(s, v);
    QueueMoves(s, v);
    hide WorkerNext;
  }

  lemma AwakeKeptByOthers(s: State, step: Step, w: nat)
    requires Enabled(s, step) && !step.WorkerStep? && StaysAwake(s, w)
    ensures StaysAwake(Next(s, step), w)
  {
    hide NotifyChoice;
    OthersOnlyWake(s, step);
    if s.workers[w] == CheckEmpty {
      QueueGrows(s, step);
    }
  }

  lemma QueueGrows(s: State, step: Step)
    requires Enabled(s, step) && !step.WorkerStep?
    ensures |Next(s, step).queue| >= |s.queue|
  {
    hide NotifyChoice;
  }

  lemma AwakeGoes(pc: WorkerPc, stopping: bool, queue: seq<Job>, ticket: nat)
    requires stopping && pc != Waiting && (pc == CheckEmpty ==> queue != [])
    ensures var pc' := WorkerGoes(pc, stopping, queue, ticket);
      pc' != Waiting && (pc' == CheckEmpty ==> queue != [])
  {
  }

  lemma {:induction false} ClosedStaysAwake(s: State, steps: seq<Step>, w: nat)
    requires Possible(s, steps) && Exclusion(s) && s.stopping && StaysAwake(s, w)
    ensures w < |Run(s, steps).workers| && Run(s, steps).workers[w] != Waiting
    decreases |steps|
  {
    hide Enabled, Next, Exclusion;
    if steps != [] {
      AwakeKept(s, steps[0], w);
      FlagKept(s, steps[0]);
      ExclusionKept(s, steps[0]);
      ClosedStaysAwake(Next(s, steps[0]), steps[1..], w);
    }
  }

  lemma NotificationMissed(s: State, w: nat)
    requires !s.fault && w < |s.workers| && s.workers[w] == CheckEmpty && s.queue == []
    ensures Possible(s, [WorkerStep(w)]) && SleepsAfter(s, [WorkerStep(w)], w)
  {
    assert [WorkerStep(w)][1..] == [];
    assert Next(s, WorkerStep(w)).workers[w] == Waiting;
    hide Enabled, Next;
    assert Run(Next(s, WorkerStep(w)), []) == Next(s, WorkerStep(w));
  }

  /** close wakes every worker, and a worker can sleep again after that exactly if it had read the flag before
      close set it and stood, with the mutex, before an empty queue: it missed the notification. */
  lemma CloseWakesAllBut(s: State, w: nat)
    requires Enabled(s, CloserStep) && s.closer == CloseNotify && s.stopping && Exclusion(s) && w < |s.workers|
    ensures var s' := Next(s, CloserStep);
      && NoneSleeps(s')
      && ((exists steps :: Possible(s', steps) && SleepsAfter(s', steps, w))
          <==> s.workers[w] == CheckEmpty && s.queue == [])
  {
    var s' := Next(s, CloserStep);
    AfterNotification(s, w);
    NotifyAllWakes(s, CloserStep);
    ExclusionKept(s, CloserStep);
    hide Enabled, Next, Exclusion, SleepsAfter, NoneSleeps;
    if s.workers[w] == CheckEmpty && s.queue == [] {
      NotificationMissed(s', w);
      assert SleepsAfter(s', [WorkerStep(w)], w);
    } else {
      forall steps | Possible(s', steps)
        ensures !SleepsAfter(s', steps, w)
      {
        ClosedStaysAwake(s', steps, w);
        AwakeAtTheEnd(s', steps, w);
      }
    }
  }

  lemma AfterNotification(s: State, w: nat)
    requires Enabled(s, CloserStep) && s.closer == CloseNotify && s.stopping && w < |s.workers|
    ensures var s' := Next(s, CloserStep);
      && !s'.fault && s'.stopping && s'.queue == s.queue && w < |s'.workers| && s'.workers[w] != Waiting
      && (s'.workers[w] == CheckEmpty <==> s.workers[w] == CheckEmpty)
  {
  }

  lemma AwakeAtTheEnd(s: State, steps: seq<Step>, w: nat)
    requires Possible(s, steps) && w < |Run(s, steps).workers| && Run(s, steps).workers[w] != Waiting
    ensures !SleepsAfter(s, steps, w)
  {
  }

  /** Worker w waits at the end of the run. */
  ghost predicate SleepsAfter(s: State, steps: seq<Step>, w: nat)
    requires Possible(s, steps)
  {
    var last := Run(s, steps);
    w < |last.workers| && last.workers[w] == Waiting
  }

  // ----- Whether wait comes to its end

  /** All workers have counted themselves finished, and the waiter will not go to sleep any more. */
  ghost predicate WillNotSleep(s: State) {
    Invariant(s) && s.numFinished == |s.workers| && s.waiter != WaitSleep && s.waiter != WaitFalse
  }

  lemma WillNotSleepKept(s: State, step: Step)
    requires Enabled(s, step) && WillNotSleep(s)
    ensures WillNotSleep(Next(s, step))
  {
    FinishedIsFull(s, step);
    InvariantKept(s, step);
    WaiterMoves(s, step);
    hide Enabled, Next, Invariant;
  }

  /** The count of finished workers never falls and never passes their number. */
  lemma FinishedIsFull(s: State, step: Step)
    requires Enabled(s, step) && Invariant(s)
    ensures var s' := Next(s, step);
      |s'.workers| == |s.workers| && s.numFinished <= s'.numFinished <= |s.workers|
  {
    InvariantKept(s, step);
    CountAll(Next(s, step).workers, Finished);
    FinishedGrows(s, step);
    hide Enabled, Next, Exclusion, Fifo, Tickets, StopAfterStart, Count;
  }

  lemma FinishedGrows(s: State, step: Step)
    requires Enabled(s, step)
    ensures |Next(s, step).workers| == |s.workers| && s.numFinished <= Next(s, step).numFinished
  {
    hide NotifyChoice;
    if step.WorkerStep? {
      WorkerFrame(s, step.w);
      hide WorkerNext;
    } else {
      OthersOnlyWake(s, step);
    }
  }

  lemma WaiterMoves(s: State, step: Step)
    requires Enabled(s, step) && s.numFinished == |s.workers| && s.waiter != WaitSleep && s.waiter != WaitFalse
    ensures Next(s, step).waiter != WaitSleep && Next(s, step).waiter != WaitFalse
  {
    hide NotifyChoice;
    if step.WorkerStep? {
      WorkerFrame(s, step.w);
      hide WorkerNext;
    }
  }

  lemma {:induction false} StaysAwakeForGood(s: State, steps: seq<Step>)
    requires Possible(s, steps) && WillNotSleep(s)
    ensures Run(s, steps).waiter != WaitSleep
    decreases |steps|
  {
    hide Enabled, Next, Invariant;
    if steps != [] {
      WillNotSleepKept(s, steps[0]);
      StaysAwakeForGood(Next(s, steps[0]), steps[1..]);
    }
  }

  /** A worker's last notification, when all are finished, wakes the waiter, which can sleep again after that
      exactly if it had read the count before the last worker raised it and not yet released the mutex: the
      count is raised and notified without the mutex. */
  lemma LastNotification(s: State, w: nat)
    requires Enabled(s, WorkerStep(w)) && s.workers[w] == NotifyAll && Invariant(s) && s.numFinished == |s.workers|
    ensures var s' := Next(s, WorkerStep(w));
      (exists steps :: Possible(s', steps) && Run(s', steps).waiter == WaitSleep) <==> s.waiter == WaitFalse
  {
    var s' := Next(s, WorkerStep(w));
    AfterLastNotification(s, w);
    InvariantKept(s, WorkerStep(w));
    hide Enabled, Next, Invariant;
    if s.waiter == WaitFalse {
      WaiterMisses(s');
    } else {
      forall steps | Possible(s', steps)
        ensures Run(s', steps).waiter != WaitSleep
      {
        StaysAwakeForGood(s', steps);
      }
    }
  }

  lemma AfterLastNotification(s: State, w: nat)
    requires Enabled(s, WorkerStep(w)) && s.workers[w] == NotifyAll
    ensures var s' := Next(s, WorkerStep(w));
      && !s'.fault && |s'.workers| == |s.workers| && s'.numFinished == s.numFinished && s'.waiter != WaitSleep
      && (s'.waiter == WaitFalse <==> s.waiter == WaitFalse)
  {
  }

  lemma WaiterMisses(s: State)
    requires !s.fault && s.waiter == WaitFalse
    ensures Possible(s, [WaiterStep]) && Run(s, [WaiterStep]).waiter == WaitSleep
  {
    assert [WaiterStep][1..] == [];
    assert Next(s, WaiterStep).waiter == WaitSleep;
    hide Enabled, Next;
    assert Run(Next(s, WaiterStep), []) == Next(s, WaiterStep);
  }
}
