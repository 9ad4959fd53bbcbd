/**
 * Any number of processes inside scull_p_read and scull_p_write at once, interleaved at the level
 * of the mutex, the wait queues and the unlocked condition checks, between two opens.
 */
module PipeProtocol {
  import opened Common
  import opened PipeRing

  type Pid = nat

  /** Where a process is. `woken` says that a wake_up has reached the process since it queued itself. */
  datatype Pc =
    | Idle
    // scull_p_read
    | RLock(count: nat, nonblock: bool)                // 128, 139: waits for the mutex
    | RTest(count: nat, nonblock: bool)                // 131: holds the mutex
    | REmpty(count: nat, nonblock: bool)               // 132: holds the mutex, found nothing to read
    | RPrepare(count: nat, nonblock: bool)             // 136: about to queue itself on inq
    | RCheck(count: nat, nonblock: bool, woken: bool)  // 136: queued, about to evaluate rp != wp
    | RSleep(count: nat, nonblock: bool, woken: bool)  // 136: queued, in schedule()
    | RCopy(count: nat)                                // 143: holds the mutex, past the wait loop
    | RMoved(count: nat, moved: nat)                   // 154: holds the mutex, rp advanced
    | RWake(count: nat, moved: nat)                    // 157: about to wake the writers
    // scull_p_write and scull_getwritespace
    | WLock(data: seq<Byte>, nonblock: bool)                // 199, 179
    | WTest(data: seq<Byte>, nonblock: bool)                // 166
    | WFull(data: seq<Byte>, nonblock: bool)                // 169
    | WPrepare(data: seq<Byte>, nonblock: bool)             // 173
    | WCheck(data: seq<Byte>, nonblock: bool, woken: bool)  // 174
    | WSleep(data: seq<Byte>, nonblock: bool, woken: bool)  // 175
    | WCopy(data: seq<Byte>)                                // 208
    | WMoved(data: seq<Byte>, moved: nat)                   // 221
    | WWake(data: seq<Byte>, moved: nat)                    // 224

  datatype State = State(
    ring: Ring,
    lock: Option<Pid>,
    pcs: map<Pid, Pc>,
    accepted: seq<Byte>,
    returned: seq<Byte>)

  predicate HoldsMutex(pc: Pc) {
    pc.RTest? || pc.REmpty? || pc.RCopy? || pc.RMoved? || pc.WTest? || pc.WFull? || pc.WCopy? || pc.WMoved?
  }

  predicate ReaderAsleep(pc: Pc) { pc.RSleep? && !pc.woken }

  predicate WriterAsleep(pc: Pc) { pc.WSleep? && !pc.woken }

  /** A writer that has advanced wp and has not yet issued its wake_up, and the same for a reader. */
  predicate WriterOwesWake(pc: Pc) { (pc.WMoved? || pc.WWake?) && pc.moved > 0 }

  predicate ReaderOwesWake(pc: Pc) { (pc.RMoved? || pc.RWake?) && pc.moved > 0 }

  /** The effect of wake_up_interruptible(&dev->inq) on one process, and on outq. */
  function WakeReader(pc: Pc): Pc {
    match pc
    case RCheck(c, nb, _) => RCheck(c, nb, true)
    case RSleep(c, nb, _) => RSleep(c, nb, true)
    case _ => pc
  }

  function WakeWriter(pc: Pc): Pc {
    match pc
    case WCheck(d, nb, _) => WCheck(d, nb, true)
    case WSleep(d, nb, _) => WSleep(d, nb, true)
    case _ => pc
  }

  // ----- the steps -----

  /** Process p moves to `pc`; nothing else changes. */
  predicate Goes(s: State, p: Pid, pc: Pc, s': State) {
    s' == s.(pcs := s.pcs[p := pc])
  }

  predicate Locks(s: State, p: Pid, pc: Pc, s': State) {
    s.lock.None? && s' == s.(pcs := s.pcs[p := pc], lock := Some(p))
  }

  predicate Unlocks(s: State, p: Pid, pc: Pc, s': State) {
    s' == s.(pcs := s.pcs[p := pc], lock := None)
  }

  ghost predicate ReaderStep(s: State, p: Pid, s': State)
    requires p in s.pcs && s.ring.Valid()
  {
    var ring := s.ring;
    match s.pcs[p]
    case Idle => exists count, nonblock :: Goes(s, p, RLock(count, nonblock), s')
    case RLock(c, nb) =>
      || Locks(s, p, RTest(c, nb), s')
      || Goes(s, p, Idle, s')  // a signal: -ERESTARTSYS
    case RTest(c, nb) =>
      Goes(s, p, if ring.rp == ring.wp then REmpty(c, nb) else RCopy(c), s')
    case REmpty(c, nb) =>
      Unlocks(s, p, if nb then Idle else RPrepare(c, nb), s')
    case RPrepare(c, nb) =>
      || Goes(s, p, RCheck(c, nb, false), s')
      || (ring.rp != ring.wp && Goes(s, p, RLock(c, nb), s'))  // the test before queueing
    case RCheck(c, nb, woken) =>
      if ring.rp != ring.wp then Goes(s, p, RLock(c, nb), s')
      else Goes(s, p, RSleep(c, nb, woken), s') || Goes(s, p, Idle, s')
    case RSleep(c, nb, woken) =>
      || (woken && Goes(s, p, RPrepare(c, nb), s'))
      || Goes(s, p, Idle, s')
    case RCopy(c) =>
      s' == s.(ring := ring.AfterRead(c),
               pcs := s.pcs[p := RMoved(c, ring.ReadCount(c))],
               returned := s.returned + ring.ReadData(c))
    case RMoved(c, m) => Unlocks(s, p, RWake(c, m), s')
    case RWake(c, m) => s' == s.(pcs := map q | q in s.pcs :: if q == p then Idle else WakeWriter(s.pcs[q]))
    case _ => false
  }

  ghost predicate WriterStep(s: State, p: Pid, s': State)
    requires p in s.pcs && s.ring.Valid()
  {
    var ring := s.ring;
    match s.pcs[p]
    case Idle => exists data, nonblock :: Goes(s, p, WLock(data, nonblock), s')
    case WLock(d, nb) =>
      || Locks(s, p, WTest(d, nb), s')
      || Goes(s, p, Idle, s')
    case WTest(d, nb) =>
      Goes(s, p, if ring.SpaceFree() == 0 then WFull(d, nb) else WCopy(d), s')
    case WFull(d, nb) =>
      Unlocks(s, p, if nb then Idle else WPrepare(d, nb), s')
    case WPrepare(d, nb) =>
      Goes(s, p, WCheck(d, nb, false), s')
    case WCheck(d, nb, woken) =>
      if ring.SpaceFree() == 0 then Goes(s, p, WSleep(d, nb, woken), s')
      else Goes(s, p, WLock(d, nb), s') || Goes(s, p, Idle, s')
    case WSleep(d, nb, woken) =>
      || (woken && Goes(s, p, WLock(d, nb), s'))
      || Goes(s, p, Idle, s')
    case WCopy(d) =>
      && ring.SpaceFree() > 0
      && s' == s.(ring := ring.AfterWrite(d),
                  pcs := s.pcs[p := WMoved(d, ring.WriteCount(|d|))],
                  accepted := s.accepted + d[..ring.WriteCount(|d|)])
    case WMoved(d, m) => Unlocks(s, p, WWake(d, m), s')
    case WWake(d, m) => s' == s.(pcs := map q | q in s.pcs :: if q == p then Idle else WakeReader(s.pcs[q]))
    case _ => false
  }

  ghost predicate Step(s: State, p: Pid, s': State) {
    p in s.pcs && s.ring.Valid() && (ReaderStep(s, p, s') || WriterStep(s, p, s'))
  }

  ghost predicate Init(s: State, size: nat) {
    && s.ring.Valid() && |s.ring.buf| == size
    && s.ring.rp == s.ring.wp == 0
    && s.lock == None
    && s.accepted == s.returned == []
    && forall p :: p in s.pcs ==> s.pcs[p] == Idle
  }

  // ----- the invariant -----

  ghost predicate Excludes(s: State) {
    forall p :: p in s.pcs ==> (HoldsMutex(s.pcs[p]) <==> s.lock == Some(p))
  }

  /** The mutex excludes, and what a process learnt under it still holds when it acts on it. */
  ghost predicate LockInv(s: State)
    requires s.ring.Valid()
  {
    && Excludes(s)
    && (s.lock.Some? ==> s.lock.value in s.pcs)
    && (forall p :: p in s.pcs && s.pcs[p].RCopy? ==> s.ring.rp != s.ring.wp)
    && (forall p :: p in s.pcs && s.pcs[p].WCopy? ==> s.ring.SpaceFree() > 0)
  }

  /** A nonzero request that got past its wait loop has moved at least one byte. */
  predicate Progressed(pc: Pc) {
    match pc
    case RMoved(c, m) => c > 0 ==> m > 0
    case RWake(c, m) => c > 0 ==> m > 0
    case WMoved(d, m) => d != [] ==> m > 0
    case WWake(d, m) => d != [] ==> m > 0
    case _ => true
  }

  ghost predicate NoLostReaderWakeup(s: State) {
    (exists p :: p in s.pcs && ReaderAsleep(s.pcs[p])) && s.ring.rp != s.ring.wp
    ==> exists w :: w in s.pcs && WriterOwesWake(s.pcs[w])
  }

  ghost predicate NoLostWriterWakeup(s: State)
    requires s.ring.Valid()
  {
    (exists p :: p in s.pcs && WriterAsleep(s.pcs[p])) && s.ring.SpaceFree() > 0
    ==> exists r :: r in s.pcs && ReaderOwesWake(s.pcs[r])
  }

  ghost predicate Inv(s: State, size: nat) {
    && Balanced(Traffic(s.ring, s.accepted, s.returned), size)
    && LockInv(s)
    && (forall p :: p in s.pcs ==> Progressed(s.pcs[p]))
    && NoLostReaderWakeup(s)
    && NoLostWriterWakeup(s)
  }

  // ----- every step keeps it -----

  predicate Copies(pc: Pc) { pc.RCopy? || pc.WCopy? }

  lemma OnlyCopiesTouchTheRing(s: State, p: Pid, s': State)
    requires Step(s, p, s') && !Copies(s.pcs[p])
    ensures s'.ring == s.ring && s'.accepted == s.accepted && s'.returned == s.returned
    ensures s'.pcs.Keys == s.pcs.Keys
    ensures forall q :: q in s.pcs && q != p ==>
      s'.pcs[q] in {s.pcs[q], WakeReader(s.pcs[q]), WakeWriter(s.pcs[q])}
  {
  }

  lemma ReaderStepKeepsLock(s: State, p: Pid, s': State)
    requires s.ring.Valid() && LockInv(s) && p in s.pcs && ReaderStep(s, p, s') && !Copies(s.pcs[p])
    ensures s'.ring == s.ring && LockInv(s')
  {
  }

  lemma WriterStepKeepsLock(s: State, p: Pid, s': State)
    requires s.ring.Valid() && LockInv(s) && p in s.pcs && WriterStep(s, p, s') && !Copies(s.pcs[p])
    ensures s'.ring == s.ring && LockInv(s')
  {
  }

  lemma QuietStepKeepsLock(s: State, p: Pid, s': State)
    requires s.ring.Valid() && LockInv(s) && Step(s, p, s') && !Copies(s.pcs[p])
    ensures s'.ring == s.ring && LockInv(s')
  {
    if ReaderStep(s, p, s') {
      ReaderStepKeepsLock(s, p, s');
    } else {
      WriterStepKeepsLock(s, p, s');
    }
  }

  lemma CopyKeepsLock(s: State, p: Pid, s': State)
    requires s.ring.Valid() && LockInv(s) && Step(s, p, s') && Copies(s.pcs[p])
    requires s'.ring.Valid()
    ensures LockInv(s')
  {
    assert s.lock == Some(p) && s'.lock == Some(p);
    assert HoldsMutex(s'.pcs[p]) && !Copies(s'.pcs[p]);
  }

  lemma StepKeepsBalance(s: State, p: Pid, s': State, size: nat)
    requires Inv(s, size) && Step(s, p, s')
    ensures Balanced(Traffic(s'.ring, s'.accepted, s'.returned), size)
  {
    var pc := s.pcs[p];
    var t := Traffic(s.ring, s.accepted, s.returned);
    if pc.RCopy? {
      ApplyKeepsBalance(t, ReadOp(pc.count), size);
    } else if pc.WCopy? {
      ApplyKeepsBalance(t, WriteOp(pc.data), size);
    } else {
      OnlyCopiesTouchTheRing(s, p, s');
    }
  }

  lemma StepKeepsProgress(s: State, p: Pid, s': State)
    requires Step(s, p, s') && LockInv(s)
    requires forall q :: q in s.pcs ==> Progressed(s.pcs[q])
    ensures forall q :: q in s'.pcs ==> Progressed(s'.pcs[q])
  {
    var pc := s.pcs[p];
    if pc.RCopy? {
      ReadTakesOldest(s.ring, pc.count);
      assert Progressed(s'.pcs[p]);
    } else if pc.WCopy? {
      WriteAppends(s.ring, pc.data);
      assert Progressed(s'.pcs[p]);
    } else {
      OnlyCopiesTouchTheRing(s, p, s');
      assert Progressed(s'.pcs[p]);
    }
  }

  /** Debts to the readers are settled only by waking all of them. */
  lemma QuietStepKeepsReaderWakeups(s: State, p: Pid, s': State)
    requires Step(s, p, s') && !Copies(s.pcs[p]) && NoLostReaderWakeup(s)
    ensures NoLostReaderWakeup(s')
  {
    OnlyCopiesTouchTheRing(s, p, s');
    if s.pcs[p].WWake? {
      assert forall r :: r in s'.pcs ==> !ReaderAsleep(s'.pcs[r]);
    } else if r :| r in s'.pcs && ReaderAsleep(s'.pcs[r]) && s.ring.rp != s.ring.wp {
      assert ReaderAsleep(s.pcs[r]);
      var w :| w in s.pcs && WriterOwesWake(s.pcs[w]);
      assert WriterOwesWake(s'.pcs[w]);
    }
  }

  lemma QuietStepKeepsWriterWakeups(s: State, p: Pid, s': State)
    requires Step(s, p, s') && !Copies(s.pcs[p]) && NoLostWriterWakeup(s)
    ensures s'.ring == s.ring && NoLostWriterWakeup(s')
  {
    hide s.ring.SpaceFree;
    OnlyCopiesTouchTheRing(s, p, s');
    if s.pcs[p].RWake? {
      assert forall r :: r in s'.pcs ==> !WriterAsleep(s'.pcs[r]);
    } else if r :| r in s'.pcs && WriterAsleep(s'.pcs[r]) && s.ring.SpaceFree() > 0 {
      assert WriterAsleep(s.pcs[r]);
      var w :| w in s.pcs && ReaderOwesWake(s.pcs[w]);
      assert ReaderOwesWake(s'.pcs[w]);
    }
  }

  lemma ReadKeepsWakeups(s: State, p: Pid, s': State)
    requires Step(s, p, s') && s.pcs[p].RCopy? && s.ring.rp != s.ring.wp && s'.ring.Valid()
    requires NoLostReaderWakeup(s) && NoLostWriterWakeup(s)
    ensures NoLostReaderWakeup(s') && NoLostWriterWakeup(s')
  {
    var c := s.pcs[p].count;
    var moved := RMoved(c, s.ring.ReadCount(c));
    assert s'.pcs == s.pcs[p := moved] && s'.ring == s.ring.AfterRead(c);
    assert s'.pcs[p] == moved;
    assert forall q :: q in s.pcs && q != p ==> s'.pcs[q] == s.pcs[q];
    if r :| r in s'.pcs && ReaderAsleep(s'.pcs[r]) {
      assert ReaderAsleep(s.pcs[r]);
      var w :| w in s.pcs && WriterOwesWake(s.pcs[w]);
      assert WriterOwesWake(s'.pcs[w]);
    }
    if moved.moved == 0 {
      assert s'.ring == s.ring;  // an empty read makes no room
      if r :| r in s'.pcs && WriterAsleep(s'.pcs[r]) && s.ring.SpaceFree() > 0 {
        assert WriterAsleep(s.pcs[r]);
        var w :| w in s.pcs && ReaderOwesWake(s.pcs[w]);
        assert ReaderOwesWake(s'.pcs[w]);
      }
    } else {
      assert ReaderOwesWake(s'.pcs[p]);
    }
  }

  lemma WriteKeepsWakeups(s: State, p: Pid, s': State)
    requires Step(s, p, s') && s.pcs[p].WCopy? && s.ring.SpaceFree() > 0 && s'.ring.Valid()
    requires NoLostReaderWakeup(s) && NoLostWriterWakeup(s)
    ensures NoLostReaderWakeup(s') && NoLostWriterWakeup(s')
  {
    var d := s.pcs[p].data;
    var moved := WMoved(d, s.ring.WriteCount(|d|));
    assert s'.pcs == s.pcs[p := moved] && s'.ring == s.ring.AfterWrite(d);
    assert s'.pcs[p] == moved;
    assert forall q :: q in s.pcs && q != p ==> s'.pcs[q] == s.pcs[q];
    if r :| r in s'.pcs && WriterAsleep(s'.pcs[r]) {
      assert WriterAsleep(s.pcs[r]);
      var w :| w in s.pcs && ReaderOwesWake(s.pcs[w]);
      assert ReaderOwesWake(s'.pcs[w]);
    }
    if moved.moved == 0 {
      assert s'.ring.rp == s.ring.rp && s'.ring.wp == s.ring.wp;
      if r :| r in s'.pcs && ReaderAsleep(s'.pcs[r]) && s.ring.rp != s.ring.wp {
        assert ReaderAsleep(s.pcs[r]);
        var w :| w in s.pcs && WriterOwesWake(s.pcs[w]);
        assert WriterOwesWake(s'.pcs[w]);
      }
    } else {
      assert WriterOwesWake(s'.pcs[p]);
    }
  }

  lemma StepKeepsInv(s: State, p: Pid, s': State, size: nat)
    requires Inv(s, size) && Step(s, p, s')
    ensures Inv(s', size)
  {
    StepKeepsBalance(s, p, s', size);
    StepKeepsProgress(s, p, s');
    if Copies(s.pcs[p]) {
      CopyKeepsLock(s, p, s');
      if s.pcs[p].RCopy? {
        ReadKeepsWakeups(s, p, s');
      } else {
        WriteKeepsWakeups(s, p, s');
      }
    } else {
      QuietStepKeepsLock(s, p, s');
      QuietStepKeepsReaderWakeups(s, p, s');
      QuietStepKeepsWriterWakeups(s, p, s');
    }
  }

  ghost predicate Next(s: State, s': State) {
    exists p :: Step(s, p, s')
  }

  ghost predicate IsRun(run: seq<State>, size: nat) {
    && |run| > 0 && Init(run[0], size)
    && forall i :: 0 < i < |run| ==> Next(run[i - 1], run[i])
  }

  /** Every state of every interleaving satisfies the invariant. */
  lemma {:induction false} RunKeepsInv(run: seq<State>, size: nat, i: nat)
    requires IsRun(run, size) && i < |run|
    ensures Inv(run[i], size)
  {
    if i == 0 {
      SpaceFreeComplementsContents(run[0].ring);
    } else {
      RunKeepsInv(run, size, i - 1);
      assert Next(run[i - 1], run[i]);
      var p :| Step(run[i - 1], p, run[i]);
      StepKeepsInv(run[i - 1], p, run[i], size);
    }
  }

  /** No lost wakeup: somebody asleep who could go on is owed a wake_up by a process that moved bytes. */
  lemma NoLostWakeup(run: seq<State>, size: nat, i: nat, p: Pid)
    requires IsRun(run, size) && i < |run| && p in run[i].pcs
    ensures run[i].ring.Valid()
    ensures ReaderAsleep(run[i].pcs[p]) && run[i].ring.rp != run[i].ring.wp
            ==> exists w :: w in run[i].pcs && WriterOwesWake(run[i].pcs[w])
    ensures WriterAsleep(run[i].pcs[p]) && run[i].ring.SpaceFree() > 0
            ==> exists r :: r in run[i].pcs && ReaderOwesWake(run[i].pcs[r])
  {
    RunKeepsInv(run, size, i);
  }

  /** In every interleaving the bytes come out in the order in which they went in. */
  lemma InterleavedFifo(run: seq<State>, size: nat, i: nat)
    requires IsRun(run, size) && i < |run|
    ensures run[i].ring.Valid() && run[i].accepted == run[i].returned + run[i].ring.Contents()
    ensures forall p :: p in run[i].pcs ==> Progressed(run[i].pcs[p])
  {
    RunKeepsInv(run, size, i);
  }

  /** With no wake_up outstanding and at least two slots, a reader and a writer are never asleep at once. */
  lemma NoMutualBlocking(run: seq<State>, size: nat, i: nat, r: Pid, w: Pid)
    requires IsRun(run, size) && i < |run| && size >= 2
    requires forall p :: p in run[i].pcs ==> !WriterOwesWake(run[i].pcs[p]) && !ReaderOwesWake(run[i].pcs[p])
    requires r in run[i].pcs && w in run[i].pcs
    ensures !(ReaderAsleep(run[i].pcs[r]) && WriterAsleep(run[i].pcs[w]))
  {
    RunKeepsInv(run, size, i);
    SpaceFreeComplementsContents(run[i].ring);
  }

  // ----- deadlock -----

  predicate Interruptible(pc: Pc) {
    pc.RLock? || pc.RCheck? || pc.RSleep? || pc.WLock? || pc.WCheck? || pc.WSleep?
  }

  /** A step that p takes by itself, rather than because of a signal. */
  ghost predicate OwnStep(s: State, p: Pid, s': State) {
    Step(s, p, s') && p in s'.pcs && (Interruptible(s.pcs[p]) ==> s'.pcs[p] != Idle)
  }

  ghost predicate CanGoOn(s: State, p: Pid) { exists s' :: OwnStep(s, p, s') }

  predicate Asleep(pc: Pc) { ReaderAsleep(pc) || WriterAsleep(pc) }

  predicate WantsMutex(pc: Pc) { pc.RLock? || pc.WLock? }

  /** Only a process that is asleep, or waits for a mutex in use, cannot go on. */
  lemma GoesOn(s: State, p: Pid)
    requires s.ring.Valid() && LockInv(s) && p in s.pcs && !Asleep(s.pcs[p])
    requires WantsMutex(s.pcs[p]) ==> s.lock.None?
    ensures CanGoOn(s, p)
  {
    if s.pcs[p].Idle? {
      assert Goes(s, p, RLock(0, false), s.(pcs := s.pcs[p := RLock(0, false)]));
      assert OwnStep(s, p, s.(pcs := s.pcs[p := RLock(0, false)]));
    } else {
      var s' := if Reading(s.pcs[p]) then ReaderGoesOn(s, p) else WriterGoesOn(s, p);
      assert OwnStep(s, p, s');
    }
  }

  predicate Reading(pc: Pc) {
    pc.RLock? || pc.RTest? || pc.REmpty? || pc.RPrepare? || pc.RCheck? || pc.RSleep? || pc.RCopy? || pc.RMoved? || pc.RWake?
  }

  ghost function ReaderGoesOn(s: State, p: Pid): (s': State)
    requires s.ring.Valid() && p in s.pcs && Reading(s.pcs[p]) && !Asleep(s.pcs[p])
    requires WantsMutex(s.pcs[p]) ==> s.lock.None?
    ensures OwnStep(s, p, s')
  {
    var ring := s.ring;
    match s.pcs[p]
    case RLock(c, nb) => s.(pcs := s.pcs[p := RTest(c, nb)], lock := Some(p))
    case RTest(c, nb) => s.(pcs := s.pcs[p := if ring.rp == ring.wp then REmpty(c, nb) else RCopy(c)])
    case REmpty(c, nb) => s.(pcs := s.pcs[p := if nb then Idle else RPrepare(c, nb)], lock := None)
    case RPrepare(c, nb) => s.(pcs := s.pcs[p := RCheck(c, nb, false)])
    case RCheck(c, nb, woken) =>
      if ring.rp != ring.wp then s.(pcs := s.pcs[p := RLock(c, nb)]) else s.(pcs := s.pcs[p := RSleep(c, nb, woken)])
    case RSleep(c, nb, woken) => s.(pcs := s.pcs[p := RPrepare(c, nb)])
    case RCopy(c) =>
      s.(ring := ring.AfterRead(c), pcs := s.pcs[p := RMoved(c, ring.ReadCount(c))], returned := s.returned + ring.ReadData(c))
    case RMoved(c, m) => s.(pcs := s.pcs[p := RWake(c, m)], lock := None)
    case RWake(c, m) => s.(pcs := map q | q in s.pcs :: if q == p then Idle else WakeWriter(s.pcs[q]))
  }

  ghost function WriterGoesOn(s: State, p: Pid): (s': State)
    requires s.ring.Valid() && p in s.pcs && !Reading(s.pcs[p]) && !s.pcs[p].Idle? && !Asleep(s.pcs[p])
    requires WantsMutex(s.pcs[p]) ==> s.lock.None?
    requires s.pcs[p].WCopy? ==> s.ring.SpaceFree() > 0
    ensures OwnStep(s, p, s')
  {
    var ring := s.ring;
    match s.pcs[p]
    case WLock(d, nb) => s.(pcs := s.pcs[p := WTest(d, nb)], lock := Some(p))
    case WTest(d, nb) => s.(pcs := s.pcs[p := if ring.SpaceFree() == 0 then WFull(d, nb) else WCopy(d)])
    case WFull(d, nb) => s.(pcs := s.pcs[p := if nb then Idle else WPrepare(d, nb)], lock := None)
    case WPrepare(d, nb) => s.(pcs := s.pcs[p := WCheck(d, nb, false)])
    case WCheck(d, nb, woken) =>
      if ring.SpaceFree() == 0 then s.(pcs := s.pcs[p := WSleep(d, nb, woken)]) else s.(pcs := s.pcs[p := WLock(d, nb)])
    case WSleep(d, nb, woken) => s.(pcs := s.pcs[p := WLock(d, nb)])
    case WCopy(d) =>
      var k := ring.WriteCount(|d|);
      s.(ring := ring.AfterWrite(d), pcs := s.pcs[p := WMoved(d, k)], accepted := s.accepted + d[..k])
    case WMoved(d, m) => s.(pcs := s.pcs[p := WWake(d, m)], lock := None)
    case WWake(d, m) => s.(pcs := map q | q in s.pcs :: if q == p then Idle else WakeReader(s.pcs[q]))
  }

  /** Nobody inside a call can go on without a signal. */
  ghost predicate Stuck(s: State) {
    forall p :: p in s.pcs && !s.pcs[p].Idle? ==> !CanGoOn(s, p)
  }

  /**
   * If nobody inside a call can go on without a signal, everybody inside is asleep and the mutex is free;
   * sleeping readers mean an empty pipe, sleeping writers a full one, so all sleepers are on one side.
   */
  lemma StuckMeansAsleep(run: seq<State>, size: nat, i: nat)
    requires IsRun(run, size) && i < |run| && Stuck(run[i])
    ensures var s := run[i];
            && s.ring.Valid() && s.lock == None
            && (forall p :: p in s.pcs ==> s.pcs[p].Idle? || Asleep(s.pcs[p]))
            && (forall p :: p in s.pcs && ReaderAsleep(s.pcs[p]) ==> s.ring.Contents() == [])
            && (forall p :: p in s.pcs && WriterAsleep(s.pcs[p]) ==> |s.ring.Contents()| == size - 1)
            && (size >= 2 ==> forall p, q :: p in s.pcs && q in s.pcs ==> !(ReaderAsleep(s.pcs[p]) && WriterAsleep(s.pcs[q])))
  {
    hide Step, CanGoOn;
    var s := run[i];
    RunKeepsInv(run, size, i);
    SpaceFreeComplementsContents(s.ring);
    if s.lock.Some? {
      GoesOn(s, s.lock.value);
    }
    forall p | p in s.pcs
      ensures s.pcs[p].Idle? || Asleep(s.pcs[p])
    {
      if !s.pcs[p].Idle? && !Asleep(s.pcs[p]) {
        GoesOn(s, p);
      }
    }
  }

  // ----- who gives up, and why -----

  /** Only calls without O_NONBLOCK come near the wait queues. */
  predicate WaitsBlocking(pc: Pc) {
    pc.RPrepare? || pc.RCheck? || pc.RSleep? || pc.WPrepare? || pc.WCheck? || pc.WSleep? ==> !pc.nonblock
  }

  /** What a process found out under the mutex still holds while it has it. */
  predicate FoundOut(pc: Pc, ring: Ring)
    requires ring.Valid()
  {
    && WaitsBlocking(pc)
    && (pc.REmpty? ==> ring.rp == ring.wp)
    && (pc.WFull? ==> ring.SpaceFree() == 0)
  }

  ghost predicate VerdictInv(s: State)
    requires s.ring.Valid()
  {
    forall p :: p in s.pcs ==> FoundOut(s.pcs[p], s.ring)
  }

  lemma OwnStepKeepsVerdict(s: State, p: Pid, s': State)
    requires Step(s, p, s') && FoundOut(s.pcs[p], s.ring) && s'.ring.Valid()
    ensures p in s'.pcs && FoundOut(s'.pcs[p], s'.ring)
  {
    hide s.ring.SpaceFree, s.ring.AfterRead, s.ring.AfterWrite, s.ring.ReadCount, s.ring.WriteCount;
  }

  lemma OthersKeepVerdict(s: State, p: Pid, s': State, q: Pid)
    requires Excludes(s) && Step(s, p, s') && q in s.pcs && q != p && FoundOut(s.pcs[q], s.ring) && s'.ring.Valid()
    ensures q in s'.pcs && FoundOut(s'.pcs[q], s'.ring)
  {
    if Copies(s.pcs[p]) {
      assert s.lock == Some(p) && s'.pcs[q] == s.pcs[q] && !HoldsMutex(s.pcs[q]);
    } else {
      OnlyCopiesTouchTheRing(s, p, s');
      hide Step, s.ring.SpaceFree;
      assert s'.pcs[q] in {s.pcs[q], WakeReader(s.pcs[q]), WakeWriter(s.pcs[q])};
    }
  }

  lemma StepKeepsVerdicts(s: State, p: Pid, s': State, size: nat)
    requires Inv(s, size) && Step(s, p, s') && VerdictInv(s) && s'.ring.Valid()
    ensures VerdictInv(s')
  {
    StepKeepsNames(s, p, s');
    hide Step, FoundOut;
    forall q | q in s'.pcs
      ensures FoundOut(s'.pcs[q], s'.ring)
    {
      if q == p {
        OwnStepKeepsVerdict(s, p, s');
      } else {
        OthersKeepVerdict(s, p, s', q);
      }
    }
  }

  lemma StepKeepsNames(s: State, p: Pid, s': State)
    requires Step(s, p, s')
    ensures s'.pcs.Keys == s.pcs.Keys
  {
    if !Copies(s.pcs[p]) {
      OnlyCopiesTouchTheRing(s, p, s');
    }
  }

  lemma {:induction false} RunKeepsVerdicts(run: seq<State>, size: nat, i: nat)
    requires IsRun(run, size) && i < |run|
    ensures run[i].ring.Valid() && VerdictInv(run[i])
  {
    RunKeepsInv(run, size, i);
    if i > 0 {
      RunKeepsVerdicts(run, size, i - 1);
      RunKeepsInv(run, size, i - 1);
      assert Next(run[i - 1], run[i]);
      var p :| Step(run[i - 1], p, run[i]);
      hide Inv, Step, VerdictInv;
      StepKeepsVerdicts(run[i - 1], p, run[i], size);
    }
  }

  /**
   * A call ends in one of three ways: it has moved its bytes and woken the other side; a signal came while it
   * waited for the mutex or on a queue; or it was nonblocking and the pipe was empty, or full. A blocking call
   * never gives up because the pipe is empty or full, and a nonblocking one never waits on a queue.
   */
  lemma CallsEndForAReason(run: seq<State>, size: nat, i: nat, p: Pid, s': State)
    requires IsRun(run, size) && i < |run| && Step(run[i], p, s')
    ensures run[i].ring.Valid()
    ensures var pc, ring := run[i].pcs[p], run[i].ring;
            && p in s'.pcs && WaitsBlocking(pc)
            && (!pc.Idle? && s'.pcs[p].Idle? ==>
                  || pc.RWake? || pc.WWake?
                  || Interruptible(pc)
                  || (pc.REmpty? && pc.nonblock && ring.Contents() == [])
                  || (pc.WFull? && pc.nonblock && |ring.Contents()| == size - 1))
            && (pc.REmpty? || pc.WFull? ==> (s'.pcs[p].Idle? <==> pc.nonblock))
  {
    RunKeepsInv(run, size, i);
    RunKeepsVerdicts(run, size, i);
    SpaceFreeComplementsContents(run[i].ring);
  }

  // ----- undisturbed calls -----

  /** p takes these steps, one after the other. */
  ghost predicate Alone(path: seq<State>, p: Pid) {
    |path| > 0 && forall i :: 0 < i < |path| ==> Step(path[i - 1], p, path[i])
  }

  /** p has done its call and the mutex is free; other processes have at most been woken. */
  ghost predicate Returned(s: State, p: Pid, s': State) {
    && s'.pcs.Keys == s.pcs.Keys && p in s'.pcs && s'.pcs[p] == Idle && s'.lock == None
    && forall q :: q in s.pcs && q != p ==> s'.pcs[q] in {s.pcs[q], WakeReader(s.pcs[q]), WakeWriter(s.pcs[q])}
  }

  /** The part of a call that holds the bytes: they are moved, the mutex given back, the other side woken. */
  lemma MoveAndWake(s: State, p: Pid) returns (path: seq<State>)
    requires s.ring.Valid() && p in s.pcs && (s.pcs[p].RMoved? || s.pcs[p].WMoved?)
    ensures Alone(path, p) && path[0] == s
    ensures var t := path[|path| - 1];
            Returned(s, p, t) && t.ring == s.ring && t.accepted == s.accepted && t.returned == s.returned
  {
    hide Step, ReaderStep, WriterStep;
    var s1 := if s.pcs[p].RMoved? then ReaderGoesOn(s, p) else WriterGoesOn(s, p);
    var s2 := if s.pcs[p].RMoved? then ReaderGoesOn(s1, p) else WriterGoesOn(s1, p);
    path := [s, s1, s2];
  }

  lemma JoinAlone(a: seq<State>, b: seq<State>, p: Pid)
    requires Alone(a, p) && Alone(b, p) && Step(a[|a| - 1], p, b[0])
    ensures Alone(a + b, p)
  {
  }

  /** From the mutex on, a reader that finds bytes returns the oldest of them. */
  lemma ReadFromLock(s: State, p: Pid) returns (path: seq<State>)
    requires s.ring.Valid() && s.lock == None && p in s.pcs && s.pcs[p].RLock? && s.ring.rp != s.ring.wp
    ensures Alone(path, p) && path[0] == s
    ensures var t, ring := path[|path| - 1], s.ring;
            && Returned(s, p, t) && t.ring == ring.AfterRead(s.pcs[p].count) && t.accepted == s.accepted
            && t.returned == s.returned + ring.ReadData(s.pcs[p].count)
  {
    ReadTakesOldest(s.ring, s.pcs[p].count);
    hide Step, ReaderStep, WriterStep, s.ring.AfterRead, s.ring.ReadData, s.ring.ReadCount, s.ring.Contents;
    var s1 := ReaderGoesOn(s, p);
    var s2 := ReaderGoesOn(s1, p);
    var s3 := ReaderGoesOn(s2, p);
    var rest := MoveAndWake(s3, p);
    path := [s, s1, s2] + rest;
    JoinAlone([s, s1, s2], rest, p);
  }

  /** p is about to start this call. */
  ghost predicate Starts(s: State, p: Pid, pc: Pc, s0: State) {
    s0 == s.(pcs := s.pcs[p := pc]) && Step(s, p, s0)
  }

  lemma StartRead(s: State, p: Pid, count: nat, nonblock: bool) returns (s0: State)
    requires s.ring.Valid() && p in s.pcs && s.pcs[p].Idle?
    ensures Starts(s, p, RLock(count, nonblock), s0)
  {
    s0 := s.(pcs := s.pcs[p := RLock(count, nonblock)]);
    assert Goes(s, p, RLock(count, nonblock), s0);
  }

  lemma StartWrite(s: State, p: Pid, data: seq<Byte>, nonblock: bool) returns (s0: State)
    requires s.ring.Valid() && p in s.pcs && s.pcs[p].Idle?
    ensures Starts(s, p, WLock(data, nonblock), s0)
  {
    s0 := s.(pcs := s.pcs[p := WLock(data, nonblock)]);
    assert Goes(s, p, WLock(data, nonblock), s0);
  }

  /** A call into an empty pipe, or a full one: refused, or put to sleep. */
  lemma RefusedOrAsleep(s: State, p: Pid) returns (path: seq<State>)
    requires s.ring.Valid() && s.lock == None && p in s.pcs
    requires (s.pcs[p].RLock? && s.ring.rp == s.ring.wp) || (s.pcs[p].WLock? && s.ring.SpaceFree() == 0)
    ensures Alone(path, p) && path[0] == s
    ensures var pc, t := s.pcs[p], path[|path| - 1];
            t == s.(pcs := s.pcs[p := if pc.nonblock then Idle
                                      else if pc.RLock? then RSleep(pc.count, false, false) else WSleep(pc.data, false, false)])
  {
    hide Step, ReaderStep, WriterStep;
    var s1 := if s.pcs[p].RLock? then ReaderGoesOn(s, p) else WriterGoesOn(s, p);
    var s2 := if s.pcs[p].RLock? then ReaderGoesOn(s1, p) else WriterGoesOn(s1, p);
    var s3 := if s.pcs[p].RLock? then ReaderGoesOn(s2, p) else WriterGoesOn(s2, p);
    path := [s, s1, s2, s3];
    if !s.pcs[p].nonblock {
      var s4 := if s.pcs[p].RLock? then ReaderGoesOn(s3, p) else WriterGoesOn(s3, p);
      var s5 := if s.pcs[p].RLock? then ReaderGoesOn(s4, p) else WriterGoesOn(s4, p);
      path := [s, s1, s2, s3, s4, s5];
    }
  }

  /**
   * A read that nobody disturbs returns the oldest bytes if there are any; over an empty pipe it leaves
   * everything as it was if it is nonblocking, and otherwise ends up asleep.
   */
  lemma ReadCallRuns(s: State, p: Pid, count: nat, nonblock: bool) returns (path: seq<State>)
    requires s.ring.Valid() && s.lock == None && p in s.pcs && s.pcs[p].Idle?
    ensures Alone(path, p) && path[0] == s
    ensures var t, ring := path[|path| - 1], s.ring;
            if ring.Contents() != [] then
              && Returned(s, p, t) && t.accepted == s.accepted && t.ring.Valid()
              && exists k: nat :: k <= Min(count, |ring.Contents()|) && (count > 0 ==> k > 0)
                   && (k < Min(count, |ring.Contents()|) ==> t.ring.rp == 0)
                   && t.returned == s.returned + ring.Contents()[..k] && t.ring.Contents() == ring.Contents()[k..]
            else if nonblock then t == s
            else t == s.(pcs := s.pcs[p := RSleep(count, nonblock, false)])
  {
    SpaceFreeComplementsContents(s.ring);
    hide Step;
    var s0 := StartRead(s, p, count, nonblock);
    if s.ring.rp != s.ring.wp {
      ReadTakesOldest(s.ring, count);
      ReadStopsOnlyAtEnd(s.ring, count);
      hide s.ring.AfterRead, s.ring.ReadData, s.ring.ReadCount, s.ring.Contents;
      var rest := ReadFromLock(s0, p);
      JoinAlone([s], rest, p);
      path := [s] + rest;
    } else {
      var rest := RefusedOrAsleep(s0, p);
      JoinAlone([s], rest, p);
      path := [s] + rest;
      assert s.pcs[p := Idle] == s.pcs;
    }
  }

  /** From the mutex on, a writer that finds room has its bytes accepted. */
  lemma WriteFromLock(s: State, p: Pid) returns (path: seq<State>)
    requires s.ring.Valid() && s.lock == None && p in s.pcs && s.pcs[p].WLock? && s.ring.SpaceFree() > 0
    ensures Alone(path, p) && path[0] == s
    ensures var t, ring, d := path[|path| - 1], s.ring, s.pcs[p].data;
            && Returned(s, p, t) && t.ring == ring.AfterWrite(d) && t.returned == s.returned
            && t.accepted == s.accepted + d[..ring.WriteCount(|d|)]
  {
    WriteAppends(s.ring, s.pcs[p].data);
    hide Step, ReaderStep, WriterStep, s.ring.AfterWrite, s.ring.WriteCount, s.ring.SpaceFree, s.ring.Contents;
    var s1 := WriterGoesOn(s, p);
    var s2 := WriterGoesOn(s1, p);
    var s3 := WriterGoesOn(s2, p);
    var rest := MoveAndWake(s3, p);
    path := [s, s1, s2] + rest;
    JoinAlone([s, s1, s2], rest, p);
  }

  /** The same for a write: into a full pipe nothing happens, or the writer ends up asleep. */
  lemma WriteCallRuns(s: State, p: Pid, data: seq<Byte>, nonblock: bool) returns (path: seq<State>)
    requires s.ring.Valid() && s.lock == None && p in s.pcs && s.pcs[p].Idle?
    ensures Alone(path, p) && path[0] == s
    ensures var t, ring := path[|path| - 1], s.ring;
            if |ring.Contents()| < |ring.buf| - 1 then
              && Returned(s, p, t) && t.returned == s.returned && t.ring.Valid()
              && exists k: nat :: k <= Min(|data|, |ring.buf| - 1 - |ring.Contents()|) && (data != [] ==> k > 0)
                   && (k < Min(|data|, |ring.buf| - 1 - |ring.Contents()|) ==> t.ring.wp == 0)
                   && t.accepted == s.accepted + data[..k] && t.ring.Contents() == ring.Contents() + data[..k]
            else if nonblock then t == s
            else t == s.(pcs := s.pcs[p := WSleep(data, nonblock, false)])
  {
    SpaceFreeComplementsContents(s.ring);
    hide Step;
    var s0 := StartWrite(s, p, data, nonblock);
    if s.ring.SpaceFree() > 0 {
      WriteAppends(s.ring, data);
      WriteStopsOnlyAtEnd(s.ring, data);
      hide s.ring.AfterWrite, s.ring.WriteCount, s.ring.SpaceFree, s.ring.Contents;
      var rest := WriteFromLock(s0, p);
      JoinAlone([s], rest, p);
      path := [s] + rest;
    } else {
      var rest := RefusedOrAsleep(s0, p);
      JoinAlone([s], rest, p);
      path := [s] + rest;
      assert s.pcs[p := Idle] == s.pcs;
    }
  }

  /** A sleeper that was woken and finds what it waited for goes back to the mutex. */
  lemma WokenGoesBack(s: State, p: Pid) returns (path: seq<State>)
    requires p in s.pcs && s.ring.Valid()
    requires (s.pcs[p].RSleep? && s.pcs[p].woken && s.ring.rp != s.ring.wp) || (s.pcs[p].WSleep? && s.pcs[p].woken)
    ensures Alone(path, p) && path[0] == s
    ensures path[|path| - 1] == s.(pcs := s.pcs[p := if s.pcs[p].RSleep? then RLock(s.pcs[p].count, s.pcs[p].nonblock)
                                                    else WLock(s.pcs[p].data, s.pcs[p].nonblock)])
  {
    if s.pcs[p].RSleep? {
      var c, nb := s.pcs[p].count, s.pcs[p].nonblock;
      var s1, s2 := s.(pcs := s.pcs[p := RPrepare(c, nb)]), s.(pcs := s.pcs[p := RLock(c, nb)]);
      assert Step(s, p, s1);
      assert s2 == s1.(pcs := s1.pcs[p := RLock(c, nb)]);
      assert Step(s1, p, s2);
      path := [s, s1, s2];
    } else {
      var s1 := s.(pcs := s.pcs[p := WLock(s.pcs[p].data, s.pcs[p].nonblock)]);
      assert Step(s, p, s1);
      path := [s, s1];
    }
  }
}
