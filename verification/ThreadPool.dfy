/**
 * The thread pool as interleaved steps of workers, submitters and the one destroyer, at the level of
 * the queue mutex, the condition variable and the unlocked store to `shutdown`.
 */
module ThreadPool {
  import opened Common

  type Tid = nat

  /** A work item is known by its place in the submission order. */
  type Task = nat

  datatype WorkerPc =
    | Start                  // 15: about to take the mutex
    | Looking                // 16: holds the mutex, about to test head and shutdown
    | Giving                 // 18: holds the mutex, found nothing to do, about to wait
    | Waiting(signalled: bool)  // 18: in pthread_cond_wait, mutex released
    | Leaving                // 21: holds the mutex, out of the wait loop
    | Took(task: Task)       // 29: holds the mutex, the item is off the queue
    | Running(task: Task)    // 32: runs the routine
    | Exited                 // 24

  datatype SubmitterPc =
    | Free           // not in add_task_2_tpool
    | Wants          // 130: about to take the mutex
    | Appending      // 131: holds the mutex
    | Appended       // 145: holds the mutex, has not signalled yet
    | Signalled      // 146: holds the mutex

  datatype DestroyerPc =
    | NotCalled      // before line 85
    | ShutdownSet    // 89: shutdown stored, mutex not yet taken
    | Broadcasting   // 90: holds the mutex
    | Broadcasted    // 91: holds the mutex
    | Joining        // 93
    | Discarding     // 99
    | Done           // 106

  datatype Holder = NoOne | Worker(w: Tid) | Submitter(s: Tid) | Destroyer

  datatype Pool = Pool(
    queue: seq<Task>,
    submitted: nat,
    shutdown: bool,
    lock: Holder,
    workers: map<Tid, WorkerPc>,
    submitters: map<Tid, SubmitterPc>,
    destroyer: DestroyerPc,
    executed: set<Task>,
    discarded: seq<Task>)

  // ----- the steps -----

  predicate WorkerTo(p: Pool, w: Tid, pc: WorkerPc, lock: Holder, p': Pool) {
    p' == p.(workers := p.workers[w := pc], lock := lock)
  }

  ghost predicate WorkerStep(p: Pool, w: Tid, p': Pool) {
    && w in p.workers
    && match p.workers[w]
       case Start => p.lock.NoOne? && WorkerTo(p, w, Looking, Worker(w), p')
       case Looking =>
         WorkerTo(p, w, if p.queue == [] && !p.shutdown then Giving else Leaving, p.lock, p')
       case Giving => WorkerTo(p, w, Waiting(false), NoOne, p')
       case Waiting(signalled) => signalled && p.lock.NoOne? && WorkerTo(p, w, Looking, Worker(w), p')
       case Leaving =>
         if p.shutdown then WorkerTo(p, w, Exited, NoOne, p')
         else p.queue != [] && p' == p.(workers := p.workers[w := Took(p.queue[0])], queue := p.queue[1..])
       case Took(task) => WorkerTo(p, w, Running(task), NoOne, p')
       case Running(task) => p' == p.(workers := p.workers[w := Start], executed := p.executed + {task})
       case Exited => false
  }

  /** pthread_cond_wait may return although nobody signalled. */
  ghost predicate SpuriousWakeup(p: Pool, w: Tid, p': Pool) {
    w in p.workers && p.workers[w].Waiting? && WorkerTo(p, w, Waiting(true), p.lock, p')
  }

  predicate Unsignalled(pc: WorkerPc) { pc.Waiting? && !pc.signalled }

  /** pthread_cond_signal wakes one of the workers that wait, if any does; waking more is a spurious wakeup. */
  ghost predicate SignalsOne(before: map<Tid, WorkerPc>, after: map<Tid, WorkerPc>) {
    if forall w :: w in before ==> !Unsignalled(before[w]) then after == before
    else exists w :: w in before && Unsignalled(before[w]) && after == before[w := Waiting(true)]
  }

  predicate SubmitterTo(p: Pool, s: Tid, pc: SubmitterPc, lock: Holder, p': Pool) {
    p' == p.(submitters := p.submitters[s := pc], lock := lock)
  }

  ghost predicate SubmitterStep(p: Pool, s: Tid, p': Pool) {
    && s in p.submitters
    && match p.submitters[s]
       case Free => p.destroyer.NotCalled? && SubmitterTo(p, s, Wants, p.lock, p')  // no submission once destruction began
       case Wants => p.lock.NoOne? && SubmitterTo(p, s, Appending, Submitter(s), p')
       case Appending =>
         p' == p.(submitters := p.submitters[s := Appended],
                  queue := p.queue + [p.submitted], submitted := p.submitted + 1)
       case Appended =>
         && SignalsOne(p.workers, p'.workers)
         && p' == p.(submitters := p.submitters[s := Signalled], workers := p'.workers)
       case Signalled => SubmitterTo(p, s, Free, NoOne, p')
  }

  function WakeAll(workers: map<Tid, WorkerPc>): map<Tid, WorkerPc> {
    map w | w in workers :: if workers[w].Waiting? then Waiting(true) else workers[w]
  }

  ghost predicate DestroyerStep(p: Pool, p': Pool) {
    match p.destroyer
    case NotCalled =>
      && (forall s :: s in p.submitters ==> p.submitters[s].Free?)
      && p' == p.(destroyer := ShutdownSet, shutdown := true)
    case ShutdownSet => p.lock.NoOne? && p' == p.(destroyer := Broadcasting, lock := Destroyer)
    case Broadcasting => p' == p.(destroyer := Broadcasted, workers := WakeAll(p.workers))
    case Broadcasted => p' == p.(destroyer := Joining, lock := NoOne)
    case Joining =>
      && (forall w :: w in p.workers ==> p.workers[w].Exited?)
      && p' == p.(destroyer := Discarding)
    case Discarding =>
      p' == if p.queue == [] then p.(destroyer := Done)
            else p.(queue := p.queue[1..], discarded := p.discarded + [p.queue[0]])
    case Done => false
  }

  ghost predicate Next(p: Pool, p': Pool) {
    || (exists w :: WorkerStep(p, w, p'))
    || (exists w :: SpuriousWakeup(p, w, p'))
    || (exists s :: SubmitterStep(p, s, p'))
    || DestroyerStep(p, p')
  }

  ghost predicate Init(p: Pool) {
    && p.queue == [] && p.submitted == 0 && !p.shutdown && p.lock.NoOne?
    && (forall w :: w in p.workers ==> p.workers[w].Start?)
    && (forall s :: s in p.submitters ==> p.submitters[s].Free?)
    && p.destroyer.NotCalled? && p.executed == {} && p.discarded == []
  }

  ghost predicate IsRun(run: seq<Pool>) {
    && |run| > 0 && Init(run[0])
    && forall i :: 0 < i < |run| ==> Next(run[i - 1], run[i])
  }

  // ----- the mutex -----

  predicate WorkerHolds(pc: WorkerPc) { pc.Looking? || pc.Giving? || pc.Leaving? || pc.Took? }

  predicate SubmitterHolds(pc: SubmitterPc) { pc.Appending? || pc.Appended? || pc.Signalled? }

  predicate DestroyerHolds(pc: DestroyerPc) { pc.Broadcasting? || pc.Broadcasted? }

  ghost predicate MutexInv(p: Pool) {
    && (forall w :: w in p.workers ==> (WorkerHolds(p.workers[w]) <==> p.lock == Worker(w)))
    && (forall s :: s in p.submitters ==> (SubmitterHolds(p.submitters[s]) <==> p.lock == Submitter(s)))
    && (DestroyerHolds(p.destroyer) <==> p.lock == Destroyer)
    && (p.lock.Worker? ==> p.lock.w in p.workers)
    && (p.lock.Submitter? ==> p.lock.s in p.submitters)
  }

  // ----- where each task is -----

  predicate InHand(p: Pool, w: Tid, task: Task) {
    && w in p.workers
    && (p.workers[w].Took? || p.workers[w].Running?)
    && p.workers[w].task == task
  }

  /** Items leave the queue in submission order: what is left is exactly the youngest ones. */
  ghost predicate QueueInOrder(p: Pool) {
    && |p.queue| + |p.discarded| <= p.submitted
    && (forall i :: 0 <= i < |p.queue| ==> p.queue[i] == p.submitted - |p.queue| + i)
    && (forall i :: 0 <= i < |p.discarded| ==> p.discarded[i] == Dequeued(p) + i)
  }

  /** How many items workers have taken so far. */
  function Dequeued(p: Pool): int {
    p.submitted - |p.queue| - |p.discarded|
  }

  /** An item that a worker took is executed or in the hand of exactly one worker. */
  ghost predicate HandsInv(p: Pool) {
    && (forall task :: task in p.executed ==> task < Dequeued(p))
    && (forall w: Tid, task: Task :: InHand(p, w, task) ==> task < Dequeued(p) && task !in p.executed)
    && (forall v: Tid, w: Tid, task: Task :: InHand(p, v, task) && InHand(p, w, task) ==> v == w)
    && (forall task: Task :: task < Dequeued(p) ==> task in p.executed || Held(p, task))
  }

  ghost predicate Held(p: Pool, task: Task) { exists w :: InHand(p, w, task) }

  // ----- signals -----

  /** A nonempty queue is never left to workers that all wait for a signal. */
  ghost predicate QueueIsWatched(p: Pool) {
    && (p.queue != [] && p.workers != map[] && (forall s :: s in p.submitters ==> !p.submitters[s].Appended?)
        ==> exists w :: w in p.workers && !Unsignalled(p.workers[w]))
    && (forall w :: w in p.workers && p.workers[w].Giving? ==> p.queue == [])
  }

  ghost predicate ShutdownInv(p: Pool) {
    && (p.shutdown <==> !p.destroyer.NotCalled?)
    && (forall w :: w in p.workers && p.workers[w].Exited? ==> p.shutdown)
    && (p.shutdown ==> forall s :: s in p.submitters ==> p.submitters[s].Free?)
    && (AfterBroadcast(p) ==> forall w :: w in p.workers ==> !Unsignalled(p.workers[w]) && !p.workers[w].Giving?)
    && (forall w :: w in p.workers && p.workers[w].Leaving? ==> p.queue != [] || p.shutdown)
    && (p.destroyer.Discarding? || p.destroyer.Done? ==> forall w :: w in p.workers ==> p.workers[w].Exited?)
    && (p.discarded != [] ==> p.destroyer.Discarding? || p.destroyer.Done?)
    && (p.destroyer.Done? ==> p.queue == [])
  }

  predicate AfterBroadcast(p: Pool) {
    p.destroyer.Broadcasted? || p.destroyer.Joining? || p.destroyer.Discarding? || p.destroyer.Done?
  }

  ghost predicate Inv(p: Pool) {
    MutexInv(p) && QueueInOrder(p) && HandsInv(p) && QueueIsWatched(p) && ShutdownInv(p)
  }

  // ----- every step keeps it -----

  lemma WorkerKeepsMutex(p: Pool, w: Tid, p': Pool)
    requires MutexInv(p) && (WorkerStep(p, w, p') || SpuriousWakeup(p, w, p'))
    ensures MutexInv(p')
  {
  }

  lemma SubmitterKeepsMutex(p: Pool, s: Tid, p': Pool)
    requires MutexInv(p) && SubmitterStep(p, s, p')
    ensures MutexInv(p')
  {
  }

  lemma DestroyerKeepsMutex(p: Pool, p': Pool)
    requires MutexInv(p) && DestroyerStep(p, p')
    ensures MutexInv(p')
  {
  }

  /** Steps that move no item into or out of a worker's hand. */
  lemma SameHands(p: Pool, p': Pool)
    requires HandsInv(p) && Dequeued(p') == Dequeued(p) && p'.executed == p.executed
    requires forall w: Tid, task: Task :: InHand(p', w, task) <==> InHand(p, w, task)
    ensures HandsInv(p')
  {
    forall t: Task | t < Dequeued(p') && t !in p'.executed
      ensures Held(p', t)
    {
      assert Held(p, t);
      var v :| InHand(p, v, t);
      assert InHand(p', v, t);
    }
  }

  lemma TakeKeepsHands(p: Pool, w: Tid, p': Pool)
    requires QueueInOrder(p) && HandsInv(p) && p.queue != [] && p.discarded == []
    requires w in p.workers && p.workers[w].Leaving?
    requires p' == p.(workers := p.workers[w := Took(p.queue[0])], queue := p.queue[1..])
    ensures QueueInOrder(p') && HandsInv(p')
  {
    var task := p.queue[0];
    assert task == Dequeued(p) && Dequeued(p') == task + 1 && InHand(p', w, task);
    assert forall v: Tid, t: Task :: InHand(p', v, t) <==> (v == w && t == task) || InHand(p, v, t);
    forall t: Task | t < Dequeued(p') && t !in p'.executed
      ensures Held(p', t)
    {
      if t < task {
        assert Held(p, t);
        var v :| InHand(p, v, t);
        assert InHand(p', v, t);
      }
    }
  }

  lemma FinishKeepsHands(p: Pool, w: Tid, p': Pool)
    requires HandsInv(p) && w in p.workers && p.workers[w].Running?
    requires p' == p.(workers := p.workers[w := Start], executed := p.executed + {p.workers[w].task})
    ensures HandsInv(p')
  {
    assert InHand(p, w, p.workers[w].task);
    assert forall v: Tid, t: Task :: InHand(p', v, t) <==> v != w && InHand(p, v, t);
    forall t: Task | t < Dequeued(p') && t !in p'.executed
      ensures Held(p', t)
    {
      assert t !in p.executed && Held(p, t);
      var v :| InHand(p, v, t);
      assert InHand(p', v, t);
    }
  }

  lemma WorkerKeepsOrder(p: Pool, w: Tid, p': Pool)
    requires Inv(p) && (WorkerStep(p, w, p') || SpuriousWakeup(p, w, p'))
    ensures QueueInOrder(p') && HandsInv(p')
  {
    var pc := p.workers[w];
    if pc.Leaving? && !p.shutdown {
      TakeKeepsHands(p, w, p');
    } else if pc.Running? {
      FinishKeepsHands(p, w, p');
    } else {
      assert forall v: Tid, t: Task :: InHand(p', v, t) <==> InHand(p, v, t);
      SameHands(p, p');
    }
  }

  lemma SubmitterKeepsOrder(p: Pool, s: Tid, p': Pool)
    requires Inv(p) && SubmitterStep(p, s, p')
    ensures QueueInOrder(p') && HandsInv(p')
  {
    if p.submitters[s].Appending? {
      assert p.lock == Submitter(s) && !p.shutdown && p.discarded == [];
    }
    assert forall v: Tid, t: Task :: InHand(p', v, t) <==> InHand(p, v, t);
    SameHands(p, p');
  }

  lemma DestroyerKeepsOrder(p: Pool, p': Pool)
    requires Inv(p) && DestroyerStep(p, p')
    ensures QueueInOrder(p') && HandsInv(p')
  {
    assert forall v: Tid, t: Task :: InHand(p', v, t) <==> InHand(p, v, t);
    SameHands(p, p');
  }

  lemma WorkerKeepsWatch(p: Pool, w: Tid, p': Pool)
    requires Inv(p) && (WorkerStep(p, w, p') || SpuriousWakeup(p, w, p'))
    ensures QueueIsWatched(p')
  {
    if p'.queue != [] && p.workers != map[] && forall s :: s in p'.submitters ==> !p'.submitters[s].Appended? {
      var v :| v in p.workers && !Unsignalled(p.workers[v]);
      assert !Unsignalled(p'.workers[v]);
    }
  }

  lemma SignalLeavesSomeoneAwake(before: map<Tid, WorkerPc>, after: map<Tid, WorkerPc>)
    requires SignalsOne(before, after) && before != map[]
    ensures exists w :: w in after && !Unsignalled(after[w])
  {
    if forall w :: w in before ==> !Unsignalled(before[w]) {
      var w :| w in before;
      assert !Unsignalled(after[w]);
    } else {
      var w :| w in before && Unsignalled(before[w]) && after == before[w := Waiting(true)];
      assert !Unsignalled(after[w]);
    }
  }

  lemma SubmitterKeepsWatch(p: Pool, s: Tid, p': Pool)
    requires Inv(p) && SubmitterStep(p, s, p')
    ensures QueueIsWatched(p')
  {
    if p.submitters[s].Appended? {
      assert p.lock == Submitter(s);
      if p.workers != map[] {
        SignalLeavesSomeoneAwake(p.workers, p'.workers);
      }
    } else if p.submitters[s].Appending? {
      assert p'.submitters[s].Appended?;
    } else {
      assert p'.workers == p.workers && p'.queue == p.queue;
      if p.queue != [] && p.workers != map[] && forall r :: r in p'.submitters ==> !p'.submitters[r].Appended? {
        assert forall r :: r in p.submitters ==> (r != s ==> p'.submitters[r] == p.submitters[r]);
      }
    }
  }

  lemma DestroyerKeepsWatch(p: Pool, p': Pool)
    requires Inv(p) && DestroyerStep(p, p')
    ensures QueueIsWatched(p')
  {
    if p'.queue != [] && p'.workers != map[] {
      if p.destroyer.Broadcasting? {
        var w :| w in p.workers;
        assert !Unsignalled(p'.workers[w]);
      } else {
        assert p.queue != [] && p'.workers == p.workers;
      }
    }
  }

  lemma StepKeepsShutdown(p: Pool, p': Pool)
    requires Inv(p) && Next(p, p')
    ensures ShutdownInv(p')
  {
    if w :| WorkerStep(p, w, p') {
      WorkerKeepsShutdown(p, w, p');
    } else if w :| SpuriousWakeup(p, w, p') {
    } else if s :| SubmitterStep(p, s, p') {
      SubmitterKeepsShutdown(p, s, p');
    } else {
      DestroyerKeepsShutdown(p, p');
    }
  }

  lemma WorkerKeepsShutdown(p: Pool, w: Tid, p': Pool)
    requires Inv(p) && WorkerStep(p, w, p')
    ensures ShutdownInv(p')
  {
  }

  lemma SubmitterKeepsShutdown(p: Pool, s: Tid, p': Pool)
    requires Inv(p) && SubmitterStep(p, s, p')
    ensures ShutdownInv(p')
  {
  }

  lemma DestroyerKeepsShutdown(p: Pool, p': Pool)
    requires Inv(p) && DestroyerStep(p, p')
    ensures ShutdownInv(p')
  {
  }

  lemma StepKeepsInv(p: Pool, p': Pool)
    requires Inv(p) && Next(p, p')
    ensures Inv(p')
  {
    StepKeepsShutdown(p, p');
    if w :| WorkerStep(p, w, p') || SpuriousWakeup(p, w, p') {
      WorkerKeepsMutex(p, w, p');
      WorkerKeepsOrder(p, w, p');
      WorkerKeepsWatch(p, w, p');
    } else if s :| SubmitterStep(p, s, p') {
      SubmitterKeepsMutex(p, s, p');
      SubmitterKeepsOrder(p, s, p');
      SubmitterKeepsWatch(p, s, p');
    } else {
      DestroyerKeepsMutex(p, p');
      DestroyerKeepsOrder(p, p');
      DestroyerKeepsWatch(p, p');
    }
  }

  lemma {:induction false} RunKeepsInv(run: seq<Pool>, i: nat)
    requires IsRun(run) && i < |run|
    ensures Inv(run[i])
  {
    if i > 0 {
      RunKeepsInv(run, i - 1);
      StepKeepsInv(run[i - 1], run[i]);
    }
  }

  // ----- the results -----

  ghost predicate Queued(p: Pool, task: Task) { task in p.queue }

  /**
   * In every interleaving each submitted item is in exactly one of queue, one worker's hand, executed
   * or discarded.
   */
  lemma EveryTaskInOnePlace(run: seq<Pool>, i: nat, task: Task)
    requires IsRun(run) && i < |run| && task < run[i].submitted
    ensures var p := run[i];
            var places := [Queued(p, task), Held(p, task), task in p.executed, task in p.discarded];
            exists k :: 0 <= k < 4 && places[k] && forall j :: 0 <= j < 4 && j != k ==> !places[j]
    ensures var p := run[i];
            forall v, w :: InHand(p, v, task) && InHand(p, w, task) ==> v == w
  {
    RunKeepsInv(run, i);
    var p := run[i];
    var d := Dequeued(p);
    WhereQueued(p, task);
    hide QueueInOrder, QueueIsWatched, ShutdownInv, MutexInv;
    assert Held(p, task) || task in p.executed <==> task < d;
    assert !(Held(p, task) && task in p.executed);
    var places := [Queued(p, task), Held(p, task), task in p.executed, task in p.discarded];
    var k := if task < d then (if task in p.executed then 2 else 1) else if task < d + |p.discarded| then 3 else 0;
    assert places[k];
  }

  /** Taken, discarded and queued items are three consecutive ranges of the submission order. */
  lemma WhereQueued(p: Pool, task: Task)
    requires QueueInOrder(p) && task < p.submitted
    ensures Queued(p, task) <==> Dequeued(p) + |p.discarded| <= task
    ensures task in p.discarded <==> Dequeued(p) <= task < Dequeued(p) + |p.discarded|
  {
    var d := Dequeued(p);
    if d + |p.discarded| <= task {
      assert p.queue[task - d - |p.discarded|] == task;
    } else if d <= task {
      assert p.discarded[task - d] == task;
    }
  }

  /** Items leave the queue in submission order: no item is taken while an older one is still queued. */
  lemma TakenInSubmissionOrder(run: seq<Pool>, i: nat, older: Task, younger: Task)
    requires IsRun(run) && i < |run| && older < younger < run[i].submitted
    requires Queued(run[i], older)
    ensures Queued(run[i], younger)
  {
    RunKeepsInv(run, i);
    var p := run[i];
    var k :| 0 <= k < |p.queue| && p.queue[k] == older;
    assert p.queue[younger - (p.submitted - |p.queue|)] == younger;
  }

  /** A nonempty queue with the mutex free always has a worker that does not wait for a signal. */
  lemma NoStuckQueue(run: seq<Pool>, i: nat)
    requires IsRun(run) && i < |run| && run[i].queue != [] && run[i].lock.NoOne? && run[i].workers != map[]
    ensures exists w :: w in run[i].workers && !Unsignalled(run[i].workers[w])
    ensures !run[i].shutdown ==>
      exists w :: w in run[i].workers && !Unsignalled(run[i].workers[w]) && !run[i].workers[w].Exited?
  {
    RunKeepsInv(run, i);
    var p := run[i];
    var w :| w in p.workers && !Unsignalled(p.workers[w]);
  }

  // ----- no task waits behind a busy worker while another one sleeps -----

  /** On the way to the queue: about to look at it, or to take an item. */
  predicate Heading(pc: WorkerPc) { pc.Start? || pc.Looking? || pc.Leaving? || (pc.Waiting? && pc.signalled) }

  ghost function Headed(p: Pool): set<Tid> { Those(p.workers, (pc: WorkerPc) => Heading(pc)) }

  /** An item was appended and the signal for it has not been sent yet. */
  ghost function Unannounced(p: Pool): set<Tid> { Those(p.submitters, (pc: SubmitterPc) => pc.Appended?) }

  ghost predicate SomebodySleeps(p: Pool) { exists w :: w in p.workers && Unsignalled(p.workers[w]) }

  ghost predicate EnoughHeaded(p: Pool) {
    !p.shutdown && SomebodySleeps(p) ==> |p.queue| <= |Headed(p)| + |Unannounced(p)|
  }

  lemma HeadedAfter(p: Pool, w: Tid, pc: WorkerPc, p': Pool)
    requires w in p.workers && p'.workers == p.workers[w := pc]
    ensures |Headed(p')| == |Headed(p)| - (if Heading(p.workers[w]) then 1 else 0) + (if Heading(pc) then 1 else 0)
  {
    ThoseAfterMove(p.workers, (pc: WorkerPc) => Heading(pc), w, pc);
  }

  lemma UnannouncedAfter(p: Pool, s: Tid, pc: SubmitterPc, p': Pool)
    requires s in p.submitters && p'.submitters == p.submitters[s := pc]
    ensures |Unannounced(p')| == |Unannounced(p)| - (if p.submitters[s].Appended? then 1 else 0) + (if pc.Appended? then 1 else 0)
  {
    ThoseAfterMove(p.submitters, (pc: SubmitterPc) => pc.Appended?, s, pc);
  }

  lemma WorkerKeepsEnough(p: Pool, w: Tid, p': Pool)
    requires Inv(p) && EnoughHeaded(p) && (WorkerStep(p, w, p') || SpuriousWakeup(p, w, p'))
    ensures EnoughHeaded(p')
  {
    hide HandsInv, QueueInOrder, Headed, Unannounced, MutexInv;
    assert w in p.workers && p'.workers == p.workers[w := p'.workers[w]];
    HeadedAfter(p, w, p'.workers[w], p');
    SameUnannounced(p, p');
    if v :| v in p'.workers && Unsignalled(p'.workers[v]) && v != w {
      assert Unsignalled(p.workers[v]);
    }
  }

  lemma SameUnannounced(p: Pool, p': Pool)
    requires p'.submitters == p.submitters
    ensures Unannounced(p') == Unannounced(p)
  {
  }

  lemma SameHeaded(p: Pool, p': Pool)
    requires p'.workers == p.workers
    ensures Headed(p') == Headed(p) && (SomebodySleeps(p') <==> SomebodySleeps(p))
  {
  }

  lemma SubmitterKeepsEnough(p: Pool, s: Tid, p': Pool)
    requires Inv(p) && EnoughHeaded(p) && SubmitterStep(p, s, p')
    ensures EnoughHeaded(p')
  {
    hide HandsInv, QueueInOrder, Headed, Unannounced, MutexInv, SomebodySleeps;
    UnannouncedAfter(p, s, p'.submitters[s], p');
    if p.submitters[s].Appended? {
      if SomebodySleeps(p') {
        SignalHeads(p, p');
      }
    } else {
      SameHeaded(p, p');
    }
  }

  /** A signal to a sleeper sends one more worker to the queue. */
  lemma SignalHeads(p: Pool, p': Pool)
    requires SignalsOne(p.workers, p'.workers) && SomebodySleeps(p')
    ensures SomebodySleeps(p) && |Headed(p')| == |Headed(p)| + 1
  {
    hide Headed;
    if w :| w in p.workers && Unsignalled(p.workers[w]) && p'.workers == p.workers[w := Waiting(true)] {
      HeadedAfter(p, w, Waiting(true), p');
    }
  }

  lemma StepKeepsEnough(p: Pool, p': Pool)
    requires Inv(p) && EnoughHeaded(p) && Next(p, p')
    ensures EnoughHeaded(p')
  {
    hide Inv, EnoughHeaded;
    if w :| WorkerStep(p, w, p') || SpuriousWakeup(p, w, p') {
      WorkerKeepsEnough(p, w, p');
    } else if s :| SubmitterStep(p, s, p') {
      SubmitterKeepsEnough(p, s, p');
    } else {
      DestroyerKeepsEnough(p, p');
    }
  }

  lemma DestroyerKeepsEnough(p: Pool, p': Pool)
    requires Inv(p) && DestroyerStep(p, p')
    ensures EnoughHeaded(p')
  {
    hide HandsInv, QueueInOrder, MutexInv, Headed, Unannounced;
  }

  lemma {:induction false} RunKeepsEnough(run: seq<Pool>, i: nat)
    requires IsRun(run) && i < |run|
    ensures EnoughHeaded(run[i])
  {
    hide Inv, Next, EnoughHeaded;
    if i == 0 {
      NothingToDo(run[0]);
    } else {
      assert Next(run[i - 1], run[i]);
      RunKeepsEnough(run, i - 1);
      RunKeepsInv(run, i - 1);
      StepKeepsEnough(run[i - 1], run[i]);
    }
  }

  lemma NothingToDo(p: Pool)
    requires p.queue == []
    ensures EnoughHeaded(p)
  {
  }

  /**
   * Before shutdown, and when no signal is outstanding, a sleeping worker means that at least as many workers are
   * on their way to the queue as it has items: none of them waits behind a busy worker while another one sleeps.
   */
  lemma SleepersMeanEnoughHeaded(run: seq<Pool>, i: nat)
    requires IsRun(run) && i < |run| && !run[i].shutdown && SomebodySleeps(run[i])
    requires forall s :: s in run[i].submitters ==> !run[i].submitters[s].Appended?
    ensures |run[i].queue| <= |Headed(run[i])|
  {
    RunKeepsEnough(run, i);
    assert Unannounced(run[i]) == {};
  }

  /** A worker that takes an item finds one: the head is never dereferenced when it is null. */
  lemma NoEmptyDequeue(run: seq<Pool>, i: nat, w: Tid)
    requires IsRun(run) && i < |run| && w in run[i].workers && run[i].workers[w].Leaving? && !run[i].shutdown
    ensures run[i].queue != []
  {
    RunKeepsInv(run, i);
  }

  /** After the broadcast no worker waits for a signal, now or later. */
  lemma ShutdownReachesEveryone(run: seq<Pool>, i: nat, w: Tid)
    requires IsRun(run) && i < |run| && AfterBroadcast(run[i]) && w in run[i].workers
    ensures !Unsignalled(run[i].workers[w]) && !run[i].workers[w].Giving?
  {
    RunKeepsInv(run, i);
  }

  /** How many steps a worker still makes before it exits, once everybody knows about the shutdown. */
  function StepsLeft(pc: WorkerPc): nat {
    match pc
    case Took(_) => 5
    case Running(_) => 4
    case Start => 3
    case Waiting(_) => 3
    case Giving => 4
    case Looking => 2
    case Leaving => 1
    case Exited => 0
  }

  /** After the broadcast every step of a worker brings it nearer to its exit and moves no other worker. */
  lemma WorkersOnlyLeave(run: seq<Pool>, i: nat, w: Tid, p': Pool)
    requires IsRun(run) && i < |run| && AfterBroadcast(run[i]) && WorkerStep(run[i], w, p')
    ensures StepsLeft(p'.workers[w]) < StepsLeft(run[i].workers[w])
    ensures forall v :: v in run[i].workers && v != w ==> p'.workers[v] == run[i].workers[v]
  {
    RunKeepsInv(run, i);
  }

  /** The steps that all workers together still make. */
  ghost function TotalLeft(workers: map<Tid, WorkerPc>): nat
    decreases |workers|
  {
    if workers == map[] then 0
    else
      var w :| w in workers;
      StepsLeft(workers[w]) + TotalLeft(workers - {w})
  }

  lemma {:induction false} TotalLeftAt(workers: map<Tid, WorkerPc>, w: Tid)
    requires w in workers
    ensures TotalLeft(workers) == StepsLeft(workers[w]) + TotalLeft(workers - {w})
    decreases |workers|
  {
    var v :| v in workers && TotalLeft(workers) == StepsLeft(workers[v]) + TotalLeft(workers - {v});
    if v != w {
      TotalLeftAt(workers - {v}, w);
      TotalLeftAt(workers - {w}, v);
      assert workers - {v} - {w} == workers - {w} - {v};
    }
  }

  lemma TotalLeftAfter(workers: map<Tid, WorkerPc>, w: Tid, pc: WorkerPc)
    requires w in workers
    ensures TotalLeft(workers[w := pc]) == TotalLeft(workers) - StepsLeft(workers[w]) + StepsLeft(pc)
  {
    TotalLeftAt(workers, w);
    TotalLeftAt(workers[w := pc], w);
    assert workers[w := pc] - {w} == workers - {w};
  }

  ghost predicate WorkerMoves(p: Pool, p': Pool) { exists w :: WorkerStep(p, w, p') }

  lemma WorkerUsesStep(p: Pool, w: Tid, p': Pool)
    requires Inv(p) && AfterBroadcast(p) && WorkerStep(p, w, p')
    ensures AfterBroadcast(p') && TotalLeft(p'.workers) < TotalLeft(p.workers)
  {
    hide TotalLeft, HandsInv, QueueInOrder, QueueIsWatched, MutexInv;
    assert w in p.workers && p'.workers == p.workers[w := p'.workers[w]];
    TotalLeftAfter(p.workers, w, p'.workers[w]);
  }

  /** After the broadcast a worker's step uses up one of those left, and no other step adds any. */
  lemma StepsAreUsedUp(p: Pool, p': Pool)
    requires Inv(p) && AfterBroadcast(p) && Next(p, p')
    ensures AfterBroadcast(p') && TotalLeft(p'.workers) + (if WorkerMoves(p, p') then 1 else 0) <= TotalLeft(p.workers)
  {
    hide TotalLeft;
    if w :| WorkerStep(p, w, p') {
      WorkerUsesStep(p, w, p');
    } else if w :| SpuriousWakeup(p, w, p') {
      TotalLeftAfter(p.workers, w, Waiting(true));
    } else {
      assert p'.workers == p.workers;
    }
  }

  /** How many steps between two states of a run were made by workers. */
  ghost function WorkerSteps(run: seq<Pool>, i: nat, j: nat): nat
    requires i <= j < |run|
    decreases j - i
  {
    if i == j then 0 else WorkerSteps(run, i, j - 1) + if WorkerMoves(run[j - 1], run[j]) then 1 else 0
  }

  /** However they are interleaved, the workers together make no more than that number of steps after the broadcast. */
  lemma {:induction false} WorkersAreDoneSoon(run: seq<Pool>, i: nat, j: nat)
    requires IsRun(run) && i <= j < |run| && AfterBroadcast(run[i])
    ensures AfterBroadcast(run[j]) && WorkerSteps(run, i, j) + TotalLeft(run[j].workers) <= TotalLeft(run[i].workers)
    decreases j
  {
    hide Inv, Next, TotalLeft, WorkerMoves, AfterBroadcast, Init;
    if i < j {
      assert Next(run[j - 1], run[j]);
      WorkersAreDoneSoon(run, i, j - 1);
      RunKeepsInv(run, j - 1);
      StepsAreUsedUp(run[j - 1], run[j]);
    }
  }

  ghost predicate IsPath(path: seq<Pool>) {
    |path| > 0 && forall i :: 0 < i < |path| ==> Next(path[i - 1], path[i])
  }

  /** While joins are pending and some worker has not exited, some worker can step. */
  lemma SomeWorkerSteps(p: Pool, w: Tid) returns (mover: Tid, p': Pool)
    requires Inv(p) && p.destroyer.Joining? && w in p.workers && !p.workers[w].Exited?
    ensures WorkerStep(p, mover, p') && p'.destroyer.Joining?
  {
    mover := if p.lock.Worker? then p.lock.w else w;
    assert p.lock.NoOne? || WorkerHolds(p.workers[mover]);
    p' := match p.workers[mover]
      case Start => p.(workers := p.workers[mover := Looking], lock := Worker(mover))
      case Waiting(_) => p.(workers := p.workers[mover := Looking], lock := Worker(mover))
      case Looking => p.(workers := p.workers[mover := Leaving])
      case Leaving => p.(workers := p.workers[mover := Exited], lock := NoOne)
      case Took(task) => p.(workers := p.workers[mover := Running(task)], lock := NoOne)
      case Running(task) => p.(workers := p.workers[mover := Start], executed := p.executed + {task})
      case _ => p;
  }

  lemma {:induction false} WorkersExit(p: Pool) returns (path: seq<Pool>)
    requires Inv(p) && p.destroyer.Joining?
    ensures IsPath(path) && path[0] == p
    ensures var q := path[|path| - 1]; Inv(q) && q.destroyer.Joining? && forall w :: w in q.workers ==> q.workers[w].Exited?
    decreases TotalLeft(p.workers)
  {
    if w :| w in p.workers && !p.workers[w].Exited? {
      hide Inv, WorkerStep, SpuriousWakeup, SubmitterStep, DestroyerStep;
      var mover, p' := SomeWorkerSteps(p, w);
      assert Next(p, p') && WorkerMoves(p, p');
      StepsAreUsedUp(p, p');
      StepKeepsInv(p, p');
      var rest := WorkersExit(p');
      hide Next;
      JoinPaths([p], rest);
      path := [p] + rest;
    } else {
      path := [p];
    }
  }

  lemma {:induction false} QueueIsDiscarded(p: Pool) returns (path: seq<Pool>)
    requires p.destroyer.Discarding?
    ensures IsPath(path) && path[0] == p && path[|path| - 1].destroyer.Done?
    decreases |p.queue|
  {
    if p.queue == [] {
      path := [p, p.(destroyer := Done)];
      assert DestroyerStep(p, path[1]);
    } else {
      var p' := p.(queue := p.queue[1..], discarded := p.discarded + [p.queue[0]]);
      assert DestroyerStep(p, p');
      var rest := QueueIsDiscarded(p');
      path := [p] + rest;
    }
  }

  lemma JoinPaths(a: seq<Pool>, b: seq<Pool>)
    requires IsPath(a) && IsPath(b) && Next(a[|a| - 1], b[0])
    ensures IsPath(a + b)
  {
  }

  lemma JoiningCompletes(p: Pool) returns (path: seq<Pool>)
    requires Inv(p) && p.destroyer.Joining?
    ensures IsPath(path) && path[0] == p && path[|path| - 1].destroyer.Done?
  {
    hide Inv;
    var exits := WorkersExit(p);
    var q := exits[|exits| - 1];
    var q' := q.(destroyer := Discarding);
    assert DestroyerStep(q, q');
    hide Next;
    assert Next(q, q') by {
      DestroyerMayStep(q, q');
    }
    var rest := QueueIsDiscarded(q');
    JoinPaths(exits, rest);
    path := exits + rest;
  }

  /** From every reachable state in which joins are pending, destruction can be completed. */
  lemma JoinsCanBeSatisfied(run: seq<Pool>, i: nat) returns (path: seq<Pool>)
    requires IsRun(run) && i < |run| && run[i].destroyer.Joining?
    ensures IsPath(path) && path[0] == run[i] && path[|path| - 1].destroyer.Done?
  {
    RunKeepsInv(run, i);
    path := JoiningCompletes(run[i]);
  }

  lemma DestroyerMayStep(p: Pool, p': Pool)
    requires DestroyerStep(p, p')
    ensures Next(p, p')
  {
  }

  /** In the end every item was executed or discarded, each once, and the discarded ones are the youngest. */
  lemma EverythingIsFreedOnce(run: seq<Pool>, i: nat, task: Task)
    requires IsRun(run) && i < |run| && run[i].destroyer.Done?
    ensures var p := run[i];
            && p.queue == []
            && (task < p.submitted <==> task in p.executed || task in p.discarded)
            && !(task in p.executed && task in p.discarded)
            && (forall j, k :: 0 <= j < k < |p.discarded| ==> p.discarded[j] < p.discarded[k])
  {
    RunKeepsInv(run, i);
    if task < run[i].submitted {
      EveryTaskInOnePlace(run, i, task);
    }
  }

  // ----- when nobody can go on -----

  ghost predicate WorkerCanGoOn(p: Pool, w: Tid) { exists p' :: WorkerStep(p, w, p') }

  ghost predicate SubmitterCanGoOn(p: Pool, s: Tid) { exists p' :: SubmitterStep(p, s, p') }

  /** A worker that neither waits for a signal nor for a mutex in use has a step. */
  lemma WorkerGoesOn(p: Pool, w: Tid)
    requires Inv(p) && w in p.workers && !p.workers[w].Exited? && !Unsignalled(p.workers[w])
    requires p.workers[w].Start? || p.workers[w].Waiting? ==> p.lock.NoOne?
    ensures WorkerCanGoOn(p, w)
  {
    var p' := match p.workers[w]
      case Start => p.(workers := p.workers[w := Looking], lock := Worker(w))
      case Waiting(_) => p.(workers := p.workers[w := Looking], lock := Worker(w))
      case Looking =>
        if p.queue == [] && !p.shutdown then p.(workers := p.workers[w := Giving]) else p.(workers := p.workers[w := Leaving])
      case Giving => p.(workers := p.workers[w := Waiting(false)], lock := NoOne)
      case Leaving =>
        if p.shutdown then p.(workers := p.workers[w := Exited], lock := NoOne)
        else p.(workers := p.workers[w := Took(p.queue[0])], queue := p.queue[1..])
      case Took(task) => p.(workers := p.workers[w := Running(task)], lock := NoOne)
      case Running(task) => p.(workers := p.workers[w := Start], executed := p.executed + {task})
      case _ => p;
    assert WorkerStep(p, w, p');
  }

  /** The workers after a signal. */
  lemma Signal(workers: map<Tid, WorkerPc>) returns (after: map<Tid, WorkerPc>)
    ensures SignalsOne(workers, after)
  {
    if w :| w in workers && Unsignalled(workers[w]) {
      after := workers[w := Waiting(true)];
    } else {
      after := workers;
    }
  }

  lemma SubmitterStepExists(p: Pool, s: Tid) returns (p': Pool)
    requires s in p.submitters && (p.submitters[s].Free? ==> p.destroyer.NotCalled?)
    requires p.submitters[s].Wants? ==> p.lock.NoOne?
    ensures SubmitterStep(p, s, p')
    ensures p'.destroyer == p.destroyer && p'.shutdown == p.shutdown && p'.executed == p.executed
    ensures p'.submitted == p.submitted + (if p.submitters[s].Appending? then 1 else 0)
    ensures p'.queue == p.queue + (if p.submitters[s].Appending? then [p.submitted] else [])
    ensures p'.submitters == p.submitters[s := match p.submitters[s]
                                              case Free => Wants
                                              case Wants => Appending
                                              case Appending => Appended
                                              case Appended => Signalled
                                              case Signalled => Free]
    ensures p'.lock == (if p.submitters[s].Wants? then Submitter(s) else if p.submitters[s].Signalled? then NoOne else p.lock)
    ensures !p.submitters[s].Appended? ==> p'.workers == p.workers
  {
    match p.submitters[s]
    case Free => p' := p.(submitters := p.submitters[s := Wants]);
    case Wants => p' := p.(submitters := p.submitters[s := Appending], lock := Submitter(s));
    case Appending =>
      p' := p.(submitters := p.submitters[s := Appended], queue := p.queue + [p.submitted], submitted := p.submitted + 1);
    case Appended =>
      var after := Signal(p.workers);
      p' := p.(submitters := p.submitters[s := Signalled], workers := after);
    case Signalled => p' := p.(submitters := p.submitters[s := Free], lock := NoOne);
  }

  /**
   * Before shutdown, if no worker and no submitter inside add_task_2_tpool has a step of its own, then the mutex
   * is free, every worker waits for a signal, and there is nothing for it to do.
   */
  lemma StuckMeansIdle(run: seq<Pool>, i: nat)
    requires IsRun(run) && i < |run| && !run[i].shutdown
    requires forall w :: w in run[i].workers ==> !WorkerCanGoOn(run[i], w)
    requires forall s :: s in run[i].submitters && !run[i].submitters[s].Free? ==> !SubmitterCanGoOn(run[i], s)
    ensures var p := run[i];
            && p.lock.NoOne? && (forall w :: w in p.workers ==> Unsignalled(p.workers[w]))
            && (p.workers != map[] ==> p.queue == []) && (forall s :: s in p.submitters ==> p.submitters[s].Free?)
  {
    var p := run[i];
    RunKeepsInv(run, i);
    LockIsFree(p);
    hide WorkerCanGoOn, SubmitterCanGoOn, HandsInv, QueueInOrder;
    forall w | w in p.workers
      ensures Unsignalled(p.workers[w])
    {
      if !Unsignalled(p.workers[w]) {
        WorkerGoesOn(p, w);
      }
    }
    forall s | s in p.submitters
      ensures p.submitters[s].Free?
    {
      if !p.submitters[s].Free? {
        SubmitterGoesOn(p, s);
      }
    }
  }

  lemma SubmitterGoesOn(p: Pool, s: Tid)
    requires s in p.submitters && !p.submitters[s].Free? && (p.submitters[s].Wants? ==> p.lock.NoOne?)
    ensures SubmitterCanGoOn(p, s)
  {
    var p' := SubmitterStepExists(p, s);
  }

  lemma LockIsFree(p: Pool)
    requires Inv(p) && !p.shutdown
    requires forall w :: w in p.workers ==> !WorkerCanGoOn(p, w)
    requires forall s :: s in p.submitters && !p.submitters[s].Free? ==> !SubmitterCanGoOn(p, s)
    ensures p.lock.NoOne?
  {
    hide WorkerCanGoOn, SubmitterCanGoOn, HandsInv, QueueInOrder, QueueIsWatched;
    if p.lock.Worker? {
      WorkerGoesOn(p, p.lock.w);
    } else if p.lock.Submitter? {
      SubmitterGoesOn(p, p.lock.s);
    }
  }

  // ----- every task can be run -----

  lemma ByWorker(p: Pool, w: Tid, p': Pool)
    requires WorkerStep(p, w, p')
    ensures Next(p, p')
  {
  }

  lemma BySubmitter(p: Pool, s: Tid, p': Pool)
    requires SubmitterStep(p, s, p')
    ensures Next(p, p')
  {
  }

  /** A worker that is at the queue takes the head and runs it. */
  lemma WorkerRunsHead(p: Pool, w: Tid) returns (path: seq<Pool>)
    requires Inv(p) && !p.shutdown && p.queue != [] && w in p.workers && p.workers[w].Leaving?
    ensures IsPath(path) && path[0] == p && p.queue[0] in path[|path| - 1].executed
  {
    var task := p.queue[0];
    var p1 := p.(workers := p.workers[w := Took(task)], queue := p.queue[1..]);
    var p2 := p1.(workers := p1.workers[w := Running(task)], lock := NoOne);
    var p3 := p2.(workers := p2.workers[w := Start], executed := p2.executed + {task});
    hide Inv, Next;
    ByWorker(p, w, p1);
    ByWorker(p1, w, p2);
    ByWorker(p2, w, p3);
    path := [p, p1, p2, p3];
  }

  /** A worker on its way to the queue, with the mutex free, gets there. */
  lemma HeadedRunsHead(p: Pool, w: Tid) returns (path: seq<Pool>)
    requires Inv(p) && !p.shutdown && p.queue != [] && w in p.workers
    requires p.workers[w].Looking? || (p.lock.NoOne? && (p.workers[w].Start? || p.workers[w] == Waiting(true)))
    ensures IsPath(path) && path[0] == p && p.queue[0] in path[|path| - 1].executed
  {
    var p1 := if p.workers[w].Looking? then p else p.(workers := p.workers[w := Looking], lock := Worker(w));
    var p2 := p1.(workers := p1.workers[w := Leaving]);
    assert WorkerStep(p1, w, p2);
    if p1 != p {
      assert WorkerStep(p, w, p1);
      ByWorker(p, w, p1);
      StepKeepsInv(p, p1);
    }
    ByWorker(p1, w, p2);
    StepKeepsInv(p1, p2);
    hide Inv, Next, WorkerStep;
    var rest := WorkerRunsHead(p2, w);
    JoinPaths([p1], rest);
    path := [p1] + rest;
    if p1 != p {
      JoinPaths([p], path);
      path := [p] + path;
    }
  }

  lemma StartedRunsHead(p: Pool, w: Tid) returns (path: seq<Pool>)
    requires Inv(p) && !p.shutdown && p.queue != [] && p.lock.NoOne? && w in p.workers && p.workers[w].Running?
    ensures IsPath(path) && path[0] == p && p.queue[0] in path[|path| - 1].executed
  {
    var p1 := p.(workers := p.workers[w := Start], executed := p.executed + {p.workers[w].task});
    assert WorkerStep(p, w, p1);
    ByWorker(p, w, p1);
    StepKeepsInv(p, p1);
    hide Inv, Next, WorkerStep;
    var rest := HeadedRunsHead(p1, w);
    JoinPaths([p], rest);
    path := [p] + rest;
  }

  /** With the mutex free some worker is awake, and runs the head. */
  lemma FreeLockRunsHead(p: Pool) returns (path: seq<Pool>)
    requires Inv(p) && !p.shutdown && p.queue != [] && p.lock.NoOne? && p.workers != map[]
    ensures IsPath(path) && path[0] == p && p.queue[0] in path[|path| - 1].executed
  {
    hide HandsInv, QueueInOrder;
    var w :| w in p.workers && !Unsignalled(p.workers[w]);
    assert !WorkerHolds(p.workers[w]) && !p.workers[w].Exited?;
    hide Inv;
    if p.workers[w].Running? {
      path := StartedRunsHead(p, w);
    } else {
      path := HeadedRunsHead(p, w);
    }
  }

  lemma WorkerHolderRunsHead(p: Pool) returns (path: seq<Pool>)
    requires Inv(p) && !p.shutdown && p.queue != [] && p.lock.Worker? && p.workers != map[]
    ensures IsPath(path) && path[0] == p && p.queue[0] in path[|path| - 1].executed
  {
    var w := p.lock.w;
    assert w in p.workers && WorkerHolds(p.workers[w]) && !p.workers[w].Giving?;
    if p.workers[w].Looking? {
      path := HeadedRunsHead(p, w);
    } else if p.workers[w].Leaving? {
      path := WorkerRunsHead(p, w);
    } else {
      var p1 := p.(workers := p.workers[w := Running(p.workers[w].task)], lock := NoOne);
      assert WorkerStep(p, w, p1);
      ByWorker(p, w, p1);
      StepKeepsInv(p, p1);
      hide Inv, Next, WorkerStep;
      var rest := StartedRunsHead(p1, w);
      JoinPaths([p], rest);
      path := [p] + rest;
    }
  }

  function Pending(pc: SubmitterPc): nat {
    match pc case Appending => 3 case Appended => 2 case Signalled => 1 case _ => 0
  }

  lemma {:induction false} SubmitterHolderRunsHead(p: Pool, s: Tid) returns (path: seq<Pool>)
    requires Inv(p) && !p.shutdown && p.queue != [] && p.lock == Submitter(s) && p.workers != map[]
    requires s in p.submitters && SubmitterHolds(p.submitters[s])
    ensures IsPath(path) && path[0] == p && p.queue[0] in path[|path| - 1].executed
    decreases if s in p.submitters then Pending(p.submitters[s]) else 0
  {
    hide Inv, Next, SubmitterStep;
    var p1 := SubmitterStepExists(p, s);
    BySubmitter(p, s, p1);
    StepKeepsInv(p, p1);
    WorkersStay(p, s, p1);
    var rest;
    if p.submitters[s].Signalled? {
      rest := FreeLockRunsHead(p1);
    } else {
      rest := SubmitterHolderRunsHead(p1, s);
    }
    JoinPaths([p], rest);
    path := [p] + rest;
  }

  lemma WorkersStay(p: Pool, s: Tid, p': Pool)
    requires SubmitterStep(p, s, p') && p.workers != map[]
    ensures p'.workers != map[]
  {
    var w :| w in p.workers;
    assert w in p'.workers;
  }

  /** From every reachable state before shutdown, with a worker, the head of the queue can be run. */
  lemma HeadCanBeRun(run: seq<Pool>, i: nat) returns (path: seq<Pool>)
    requires IsRun(run) && i < |run| && !run[i].shutdown && run[i].queue != [] && run[i].workers != map[]
    ensures IsPath(path) && path[0] == run[i] && run[i].queue[0] in path[|path| - 1].executed
  {
    var p := run[i];
    RunKeepsInv(run, i);
    if p.lock.Worker? {
      path := WorkerHolderRunsHead(p);
    } else if p.lock.Submitter? {
      path := SubmitterHolderRunsHead(p, p.lock.s);
    } else {
      path := FreeLockRunsHead(p);
    }
  }

  /** With the mutex free a submitter appends its item behind all others, signals and returns. */
  lemma SubmissionRuns(p: Pool, s: Tid) returns (path: seq<Pool>)
    requires s in p.submitters && p.submitters[s].Free? && p.destroyer.NotCalled? && p.lock.NoOne?
    ensures IsPath(path) && path[0] == p
    ensures var q := path[|path| - 1];
            && q.queue == p.queue + [p.submitted] && q.submitted == p.submitted + 1 && q.lock.NoOne?
            && q.submitters == p.submitters && SignalsOne(p.workers, q.workers) && q.executed == p.executed
  {
    hide Next, SubmitterStep, SignalsOne;
    var p1 := SubmitterStepExists(p, s);
    var p2 := SubmitterStepExists(p1, s);
    var p3 := SubmitterStepExists(p2, s);
    var p4 := SubmitterStepExists(p3, s);
    var p5 := SubmitterStepExists(p4, s);
    BySubmitter(p, s, p1);
    BySubmitter(p1, s, p2);
    BySubmitter(p2, s, p3);
    BySubmitter(p3, s, p4);
    BySubmitter(p4, s, p5);
    SignalIsSent(p3, s, p4);
    assert p5.submitters == p.submitters;
    path := [p, p1, p2, p3, p4, p5];
  }

  lemma SignalIsSent(p: Pool, s: Tid, p': Pool)
    requires SubmitterStep(p, s, p') && p.submitters[s].Appended?
    ensures SignalsOne(p.workers, p'.workers)
  {
  }

  // ----- destruction can always be completed -----

  /** Steps until the mutex is given back. */
  function HoldLeft(pc: WorkerPc): nat {
    match pc case Looking => 3 case Giving => 1 case Leaving => 2 case Took(_) => 1 case _ => 0
  }

  lemma {:induction false} LockGetsFree(p: Pool) returns (path: seq<Pool>)
    requires Inv(p) && (p.lock.Worker? || p.lock.NoOne?) && (p.lock.Worker? ==> p.lock.w in p.workers)
    ensures IsPath(path) && path[0] == p
    ensures var q := path[|path| - 1]; Inv(q) && q.lock.NoOne? && q.destroyer == p.destroyer && q.submitters == p.submitters
    decreases if p.lock.Worker? && p.lock.w in p.workers then HoldLeft(p.workers[p.lock.w]) + 1 else 0
  {
    if p.lock.NoOne? {
      path := [p];
    } else {
      var w := p.lock.w;
      var p1 := HolderSteps(p, w);
      ByWorker(p, w, p1);
      StepKeepsInv(p, p1);
      hide Inv, Next, WorkerStep;
      var rest := LockGetsFree(p1);
      JoinPaths([p], rest);
      path := [p] + rest;
    }
  }

  lemma HolderSteps(p: Pool, w: Tid) returns (p': Pool)
    requires Inv(p) && w in p.workers && p.lock == Worker(w)
    ensures WorkerStep(p, w, p') && p'.destroyer == p.destroyer && p'.submitters == p.submitters && w in p'.workers
    ensures p'.lock.NoOne? || (p'.lock == Worker(w) && HoldLeft(p'.workers[w]) < HoldLeft(p.workers[w]))
  {
    assert WorkerHolds(p.workers[w]);
    match p.workers[w] {
      case Looking =>
        if p.queue == [] && !p.shutdown {
          p' := p.(workers := p.workers[w := Giving]);
        } else {
          p' := p.(workers := p.workers[w := Leaving]);
        }
      case Giving => p' := p.(workers := p.workers[w := Waiting(false)], lock := NoOne);
      case Leaving =>
        if p.shutdown {
          p' := p.(workers := p.workers[w := Exited], lock := NoOne);
        } else {
          p' := p.(workers := p.workers[w := Took(p.queue[0])], queue := p.queue[1..]);
        }
      case Took(task) => p' := p.(workers := p.workers[w := Running(task)], lock := NoOne);
    }
  }

  /** From every reachable state with no submission in progress destroy_tpool can be called, and run to its end. */
  lemma DestructionCanBeCompleted(run: seq<Pool>, i: nat) returns (path: seq<Pool>)
    requires IsRun(run) && i < |run| && run[i].destroyer.NotCalled?
    requires forall s :: s in run[i].submitters ==> run[i].submitters[s].Free?
    ensures IsPath(path) && path[0] == run[i] && path[|path| - 1].destroyer.Done?
  {
    var p := run[i];
    RunKeepsInv(run, i);
    var p1 := p.(destroyer := ShutdownSet, shutdown := true);
    assert DestroyerStep(p, p1);
    DestroyerMayStep(p, p1);
    StepKeepsInv(p, p1);
    var toFree := LockGetsFree(p1);
    JoinPaths([p], toFree);
    path := [p] + toFree;
    var rest := ShutdownCompletes(toFree[|toFree| - 1]);
    JoinPathsAt(path, rest);
    path := path + rest[1..];
  }

  lemma JoinPathsAt(a: seq<Pool>, b: seq<Pool>)
    requires IsPath(a) && IsPath(b) && a[|a| - 1] == b[0]
    ensures IsPath(a + b[1..]) && (a + b[1..])[|a + b[1..]| - 1] == b[|b| - 1]
  {
    var c := a + b[1..];
    forall i | 0 < i < |c|
      ensures Next(c[i - 1], c[i])
    {
      if i >= |a| {
        assert c[i] == b[i - |a| + 1] && c[i - 1] == b[i - |a|];
      }
    }
  }

  lemma ShutdownCompletes(p: Pool) returns (path: seq<Pool>)
    requires Inv(p) && p.destroyer.ShutdownSet? && p.lock.NoOne?
    ensures IsPath(path) && path[0] == p && path[|path| - 1].destroyer.Done?
  {
    var p1 := p.(destroyer := Broadcasting, lock := Destroyer);
    var p2 := p1.(destroyer := Broadcasted, workers := WakeAll(p1.workers));
    var p3 := p2.(destroyer := Joining, lock := NoOne);
    assert DestroyerStep(p, p1) && DestroyerStep(p1, p2) && DestroyerStep(p2, p3);
    DestroyerMayStep(p, p1);
    DestroyerMayStep(p1, p2);
    DestroyerMayStep(p2, p3);
    StepKeepsInv(p, p1);
    StepKeepsInv(p1, p2);
    StepKeepsInv(p2, p3);
    hide Inv, Next, DestroyerStep, WakeAll;
    var rest := JoiningCompletes(p3);
    JoinPaths([p, p1, p2], rest);
    path := [p, p1, p2] + rest;
  }
}
