/** Who may have a scull device open: the single-open counter and the two uid-owned devices. */
module ScullAccess {
  import opened Common

  type Pid = nat

  // ----- scull_s: one open at a time, by an atomic counter -----

  datatype SinglePc =
    | Outside
    | Refused   // decremented the counter below zero and has not yet undone it
    | Inside    // the open succeeded and was not yet released

  datatype Single = Single(available: int, pcs: map<Pid, SinglePc>)

  /** Atomic steps: atomic_dec_and_test, the undoing atomic_inc, and the one of scull_s_release. */
  ghost predicate SingleStep(s: Single, p: Pid, s': Single) {
    && p in s.pcs
    && match s.pcs[p]
       case Outside =>
         s' == Single(s.available - 1, s.pcs[p := if s.available - 1 == 0 then Inside else Refused])
       case Refused => s' == Single(s.available + 1, s.pcs[p := Outside])
       case Inside => s' == Single(s.available + 1, s.pcs[p := Outside])
  }

  ghost predicate SingleNext(s: Single, s': Single) {
    exists p :: SingleStep(s, p, s')
  }

  ghost function Holders(s: Single): set<Pid> { Those(s.pcs, (pc: SinglePc) => pc.Inside?) }

  ghost function Undoing(s: Single): set<Pid> { Those(s.pcs, (pc: SinglePc) => pc.Refused?) }

  ghost predicate IsSingleRun(run: seq<Single>) {
    && |run| > 0 && run[0].available == 1 && (forall p :: p in run[0].pcs ==> run[0].pcs[p].Outside?)
    && forall i :: 0 < i < |run| ==> SingleNext(run[i - 1], run[i])
  }

  /** available + holders + openers that still have to undo their decrement is always one. */
  lemma {:induction false} SingleConservation(run: seq<Single>, i: nat)
    requires IsSingleRun(run) && i < |run|
    ensures run[i].available + |Holders(run[i])| + |Undoing(run[i])| == 1
  {
    if i == 0 {
      assert Holders(run[0]) == {} && Undoing(run[0]) == {};
    } else {
      SingleConservation(run, i - 1);
      assert SingleNext(run[i - 1], run[i]);
      var p :| SingleStep(run[i - 1], p, run[i]);
      ThoseAfterMove(run[i - 1].pcs, (pc: SinglePc) => pc.Inside?, p, run[i].pcs[p]);
      ThoseAfterMove(run[i - 1].pcs, (pc: SinglePc) => pc.Refused?, p, run[i].pcs[p]);
    }
  }

  /** The consequences of the conservation law for exclusion. */
  ghost predicate SingleInv(s: Single) {
    && (|Holders(s)| > 0 ==> s.available <= 0)
    && (s.available == 1 <==> Holders(s) == {} && Undoing(s) == {})
    && |Holders(s)| <= 1
  }

  /**
   * There is never more than one holder, whatever the interleaving; and an open succeeds exactly when
   * the device is neither held nor about to be given back by an opener that was refused.
   */
  lemma {:induction false} SingleExclusion(run: seq<Single>, i: nat)
    requires IsSingleRun(run) && i < |run|
    ensures SingleInv(run[i])
    ensures forall p, s' :: p in run[i].pcs && run[i].pcs[p].Outside? && SingleStep(run[i], p, s') ==>
              (s'.pcs[p].Inside? <==> Holders(run[i]) == {} && Undoing(run[i]) == {})
  {
    SingleConservation(run, i);
    if i == 0 {
      assert Holders(run[0]) == {} && Undoing(run[0]) == {};
    } else {
      SingleExclusion(run, i - 1);
      assert SingleNext(run[i - 1], run[i]);
      var p :| SingleStep(run[i - 1], p, run[i]);
      ThoseAfterMove(run[i - 1].pcs, (pc: SinglePc) => pc.Inside?, p, run[i].pcs[p]);
      ThoseAfterMove(run[i - 1].pcs, (pc: SinglePc) => pc.Refused?, p, run[i].pcs[p]);
    }
  }

  // ----- scull_u and scull_w: owned by a user -----

  type Uid = nat

  datatype Cred = Cred(uid: Uid, euid: Uid, dacOverride: bool)

  /** scull_w_available. */
  predicate Available(count: int, owner: Uid, c: Cred) {
    count == 0 || owner == c.uid || owner == c.euid || c.dacOverride
  }

  /** The locked part of scull_u_open: None is -EBUSY, otherwise the new count and owner. */
  function UserOpen(count: int, owner: Uid, c: Cred): Option<(int, Uid)> {
    if count != 0 && owner != c.uid && owner != c.euid && !c.dacOverride then None
    else Some((count + 1, if count == 0 then c.uid else owner))
  }

  /** The blocking device lets in exactly those whom the refusing device lets in, with the same effect. */
  lemma UserOpenAgrees(count: int, owner: Uid, c: Cred)
    ensures UserOpen(count, owner, c).Some? <==> Available(count, owner, c)
    ensures Available(count, owner, c) ==> UserOpen(count, owner, c) == Some((count + 1, NewOwner(count, owner, c)))
  {
  }

  function NewOwner(count: int, owner: Uid, c: Cred): Uid {
    if count == 0 then c.uid else owner
  }

  /** Where a process is in scull_w_open and scull_w_release. */
  datatype Pc =
    | Out
    | Test(nonblock: bool)                  // 178, 184: about to take the spinlock and look
    | Prepare(nonblock: bool)               // 182: about to queue itself
    | Check(nonblock: bool, woken: bool)    // 182: queued, about to evaluate scull_w_available
    | Sleep(nonblock: bool, woken: bool)    // 182: queued, in schedule()
    | Holder                                // has the device open
    | Released(temp: int)                   // 207: gave its count back and remembers what was left

  datatype State = State(count: int, owner: Uid, pcs: map<Pid, Pc>, creds: map<Pid, Cred>)

  function Wake(pc: Pc): Pc {
    match pc
    case Check(nb, _) => Check(nb, true)
    case Sleep(nb, _) => Sleep(nb, true)
    case _ => pc
  }

  ghost predicate Goes(s: State, p: Pid, pc: Pc, s': State) {
    s' == s.(pcs := s.pcs[p := pc])
  }

  /** One step of process p; a part inside the spinlock is one step. */
  ghost predicate Step(s: State, p: Pid, s': State) {
    && p in s.pcs && p in s.creds
    && var ok := Available(s.count, s.owner, s.creds[p]);
       match s.pcs[p]
       case Out => exists nonblock :: Goes(s, p, Test(nonblock), s')
       case Test(nb) =>
         if ok then
           s' == s.(count := s.count + 1, owner := NewOwner(s.count, s.owner, s.creds[p]), pcs := s.pcs[p := Holder])
         else Goes(s, p, if nb then Out else Prepare(nb), s')
       case Prepare(nb) =>
         Goes(s, p, Check(nb, false), s') || (ok && Goes(s, p, Test(nb), s'))
       case Check(nb, woken) =>
         if ok then Goes(s, p, Test(nb), s')
         else Goes(s, p, Sleep(nb, woken), s') || Goes(s, p, Out, s')
       case Sleep(nb, woken) =>
         (woken && Goes(s, p, Prepare(nb), s')) || Goes(s, p, Out, s')
       case Holder =>
         s' == s.(count := s.count - 1, pcs := s.pcs[p := Released(s.count - 1)])
       case Released(temp) =>
         s' == if temp == 0 then s.(pcs := map q | q in s.pcs :: if q == p then Out else Wake(s.pcs[q]))
               else s.(pcs := s.pcs[p := Out])
  }

  ghost predicate Next(s: State, s': State) {
    exists p :: Step(s, p, s')
  }

  ghost function OpenedBy(s: State): set<Pid> { Those(s.pcs, (pc: Pc) => pc.Holder?) }

  predicate Asleep(pc: Pc) { pc.Sleep? && !pc.woken }

  /** A releaser that reached zero and has not yet woken the queue. */
  predicate OwesWake(pc: Pc) { pc.Released? && pc.temp == 0 }

  ghost predicate Entitled(s: State) {
    forall p :: p in s.pcs && s.pcs[p].Holder? ==>
      p in s.creds
      && (s.creds[p].dacOverride || s.owner == s.creds[p].uid || s.owner == s.creds[p].euid)
  }

  ghost predicate SleeperIsOwed(s: State, p: Pid) {
    p in s.pcs && p in s.creds && Asleep(s.pcs[p]) && Available(s.count, s.owner, s.creds[p])
    ==> exists r :: r in s.pcs && OwesWake(s.pcs[r])
  }

  ghost predicate Inv(s: State) {
    && s.count == |OpenedBy(s)|
    && Entitled(s)
    && forall p :: SleeperIsOwed(s, p)
  }

  ghost predicate IsRun(run: seq<State>) {
    && |run| > 0 && run[0].count == 0 && (forall p :: p in run[0].pcs ==> run[0].pcs[p] == Out && p in run[0].creds)
    && forall i :: 0 < i < |run| ==> Next(run[i - 1], run[i])
  }

  lemma StepKeepsCount(s: State, p: Pid, s': State)
    requires Inv(s) && Step(s, p, s')
    ensures s'.count == |OpenedBy(s')| && Entitled(s')
  {
    var f := (pc: Pc) => pc.Holder?;
    if OwesWake(s.pcs[p]) {
      assert OpenedBy(s') == OpenedBy(s);
    } else {
      ThoseAfterMove(s.pcs, f, p, s'.pcs[p]);
      assert s'.pcs == s.pcs[p := s'.pcs[p]];
    }
    if q :| q in s'.pcs && s'.pcs[q].Holder? && q != p {
      assert q in OpenedBy(s);
      assert s.count > 0;
    }
  }

  lemma StepKeepsSleepersOwed(s: State, p: Pid, s': State, t: Pid)
    requires Inv(s) && Step(s, p, s')
    ensures SleeperIsOwed(s', t)
  {
    if t in s'.pcs && t in s'.creds && Asleep(s'.pcs[t]) && Available(s'.count, s'.owner, s'.creds[t]) {
      if s.pcs[p].Holder? && s.count == 1 {
        assert OwesWake(s'.pcs[p]);
      } else {
        assert !OwesWake(s.pcs[p]);
        assert SleeperIsOwed(s, t);
        if s.pcs[p].Holder? {
          assert p in OpenedBy(s);
        }
        var r :| r in s.pcs && OwesWake(s.pcs[r]);
        assert OwesWake(s'.pcs[r]);
      }
    }
  }

  /** In every run: the count is the number of holders, holders are entitled, available sleepers are owed a wakeup. */
  lemma {:induction false} RunKeepsInv(run: seq<State>, i: nat)
    requires IsRun(run) && i < |run|
    ensures Inv(run[i])
  {
    if i == 0 {
      assert OpenedBy(run[0]) == {};
    } else {
      RunKeepsInv(run, i - 1);
      assert Next(run[i - 1], run[i]);
      var p :| Step(run[i - 1], p, run[i]);
      StepKeepsCount(run[i - 1], p, run[i]);
      forall t
        ensures SleeperIsOwed(run[i], t)
      {
        StepKeepsSleepersOwed(run[i - 1], p, run[i], t);
      }
    }
  }

  /** The owner changes only while nobody holds the device, and credentials never change. */
  lemma OwnerChangesOnlyWhenFree(run: seq<State>, i: nat)
    requires IsRun(run) && 0 < i < |run|
    ensures run[i].owner != run[i - 1].owner ==> OpenedBy(run[i - 1]) == {} && run[i - 1].count == 0
  {
    RunKeepsInv(run, i - 1);
    assert Next(run[i - 1], run[i]);
  }

  /** Two holders without the capability are two openings by the owner. */
  lemma HoldersShareTheOwner(run: seq<State>, i: nat, p: Pid, q: Pid)
    requires IsRun(run) && i < |run|
    requires p in OpenedBy(run[i]) && q in OpenedBy(run[i])
    ensures p in run[i].creds && q in run[i].creds
    ensures var c, d := run[i].creds[p], run[i].creds[q];
            !c.dacOverride && !d.dacOverride ==> {c.uid, c.euid} * {d.uid, d.euid} != {}
  {
    RunKeepsInv(run, i);
    var c, d := run[i].creds[p], run[i].creds[q];
    if !c.dacOverride && !d.dacOverride {
      assert run[i].owner in {c.uid, c.euid} * {d.uid, d.euid};
    }
  }

  // ----- nobody is kept waiting without a reason -----

  lemma {:induction false} EverybodyHasCredentials(run: seq<State>, i: nat)
    requires IsRun(run) && i < |run|
    ensures forall p :: p in run[i].pcs ==> p in run[i].creds
  {
    if i > 0 {
      EverybodyHasCredentials(run, i - 1);
      assert Next(run[i - 1], run[i]);
    }
  }

  /** Inside scull_w_open, or inside scull_w_release. */
  predicate InCall(pc: Pc) { !pc.Out? && !pc.Holder? }

  /** A step that p takes by itself, rather than because of a signal. */
  ghost predicate OwnStep(s: State, p: Pid, s': State) {
    Step(s, p, s') && p in s'.pcs && (s.pcs[p].Check? || s.pcs[p].Sleep? ==> s'.pcs[p] != Out)
  }

  ghost predicate CanGoOn(s: State, p: Pid) { exists s' :: OwnStep(s, p, s') }

  lemma GoesOn(s: State, p: Pid)
    requires p in s.pcs && p in s.creds && InCall(s.pcs[p]) && !Asleep(s.pcs[p])
    ensures CanGoOn(s, p)
  {
    var ok := Available(s.count, s.owner, s.creds[p]);
    var s' := match s.pcs[p]
      case Test(nb) =>
        if ok then s.(count := s.count + 1, owner := NewOwner(s.count, s.owner, s.creds[p]), pcs := s.pcs[p := Holder])
        else s.(pcs := s.pcs[p := if nb then Out else Prepare(nb)])
      case Prepare(nb) => s.(pcs := s.pcs[p := Check(nb, false)])
      case Check(nb, woken) => if ok then s.(pcs := s.pcs[p := Test(nb)]) else s.(pcs := s.pcs[p := Sleep(nb, woken)])
      case Sleep(nb, _) => s.(pcs := s.pcs[p := Prepare(nb)])
      case Released(temp) =>
        if temp == 0 then s.(pcs := map q | q in s.pcs :: if q == p then Out else Wake(s.pcs[q]))
        else s.(pcs := s.pcs[p := Out])
      case _ => s;
    assert OwnStep(s, p, s');
  }

  /**
   * If nobody inside a call can go on without a signal, everybody inside is asleep in scull_w_open, the device is
   * held, and none of the sleepers may have it.
   */
  lemma StuckMeansAsleep(run: seq<State>, i: nat)
    requires IsRun(run) && i < |run|
    requires forall p :: p in run[i].pcs && InCall(run[i].pcs[p]) ==> !CanGoOn(run[i], p)
    ensures var s := run[i];
            forall p :: p in s.pcs && InCall(s.pcs[p]) ==>
              Asleep(s.pcs[p]) && s.count > 0 && OpenedBy(s) != {} && p in s.creds && !Available(s.count, s.owner, s.creds[p])
  {
    hide Step, CanGoOn;
    var s := run[i];
    RunKeepsInv(run, i);
    EverybodyHasCredentials(run, i);
    forall p | p in s.pcs && InCall(s.pcs[p])
      ensures Asleep(s.pcs[p])
    {
      if !Asleep(s.pcs[p]) {
        GoesOn(s, p);
      }
    }
    forall p | p in s.pcs && InCall(s.pcs[p])
      ensures !Available(s.count, s.owner, s.creds[p])
    {
      assert SleeperIsOwed(s, p);
    }
  }

  // ----- who gets in, who is refused, who waits -----

  predicate WaitsBlocking(pc: Pc) { pc.Prepare? || pc.Check? || pc.Sleep? ==> !pc.nonblock }

  lemma {:induction false} OnlyBlockingOpensWait(run: seq<State>, i: nat)
    requires IsRun(run) && i < |run|
    ensures forall p :: p in run[i].pcs ==> WaitsBlocking(run[i].pcs[p])
  {
    if i > 0 {
      OnlyBlockingOpensWait(run, i - 1);
      assert Next(run[i - 1], run[i]);
    }
  }

  /**
   * Whether an open succeeds depends on who holds the device and who owns it: it does when nobody holds it, when
   * the owner is the opener's uid or euid, or with the capability. The first holder becomes the owner by its uid.
   * Otherwise a nonblocking open is refused at once and a blocking one goes on to wait, giving up only on a signal.
   */
  lemma OpenSucceedsIff(run: seq<State>, i: nat, p: Pid, s': State)
    requires IsRun(run) && i < |run| && Step(run[i], p, s')
    ensures p in run[i].creds && p in s'.pcs
    ensures var s, c := run[i], run[i].creds[p];
            var pc, pc' := s.pcs[p], s'.pcs[p];
            var mayOpen := OpenedBy(s) == {} || s.owner == c.uid || s.owner == c.euid || c.dacOverride;
            && (pc'.Holder? <==> pc.Test? && mayOpen)
            && (pc'.Holder? ==> s'.owner == (if OpenedBy(s) == {} then c.uid else s.owner) && s'.count == s.count + 1)
            && (pc.Test? && !mayOpen ==> if pc.nonblock then pc'.Out? else pc'.Prepare?)
            && (!pc.Out? && pc'.Out? ==> pc.Released? || pc.Check? || pc.Sleep? || (pc.Test? && pc.nonblock && !mayOpen))
            && (pc.Check? || pc.Sleep? ==> !pc.nonblock)
  {
    RunKeepsInv(run, i);
    OnlyBlockingOpensWait(run, i);
    var s := run[i];
    assert s.count == 0 <==> OpenedBy(s) == {};
  }

  // ----- undisturbed calls -----

  /** p takes these steps, one after the other. */
  ghost predicate Alone(path: seq<State>, p: Pid) {
    |path| > 0 && forall i :: 0 < i < |path| ==> Step(path[i - 1], p, path[i])
  }

  /** An open that nobody disturbs gets the device if it may have it; otherwise it is refused, or falls asleep. */
  lemma OpenRuns(s: State, p: Pid, nonblock: bool) returns (path: seq<State>)
    requires Inv(s) && p in s.pcs && p in s.creds && s.pcs[p].Out?
    ensures Alone(path, p) && path[0] == s
    ensures var t, c := path[|path| - 1], s.creds[p];
            if OpenedBy(s) == {} || s.owner == c.uid || s.owner == c.euid || c.dacOverride then
              t == s.(count := s.count + 1, owner := if OpenedBy(s) == {} then c.uid else s.owner, pcs := s.pcs[p := Holder])
            else if nonblock then t == s
            else t == s.(pcs := s.pcs[p := Sleep(nonblock, false)])
  {
    assert s.count == 0 <==> OpenedBy(s) == {};
    hide Inv, OpenedBy;
    var s0 := s.(pcs := s.pcs[p := Test(nonblock)]);
    assert Goes(s, p, Test(nonblock), s0);
    var ok := Available(s.count, s.owner, s.creds[p]);
    if ok {
      var s1 := s0.(count := s.count + 1, owner := NewOwner(s.count, s.owner, s.creds[p]), pcs := s0.pcs[p := Holder]);
      path := [s, s0, s1];
    } else if nonblock {
      assert s.pcs[p := Out] == s.pcs;
      path := [s, s0, s];
    } else {
      var s1 := s0.(pcs := s0.pcs[p := Prepare(nonblock)]);
      var s2 := s1.(pcs := s1.pcs[p := Check(nonblock, false)]);
      var s3 := s2.(pcs := s2.pcs[p := Sleep(nonblock, false)]);
      path := [s, s0, s1, s2, s3];
    }
  }

  /** A sleeper that was woken and may have the device gets it. */
  lemma WokenSleeperOpens(s: State, p: Pid) returns (path: seq<State>)
    requires p in s.pcs && p in s.creds && s.pcs[p].Sleep? && s.pcs[p].woken && Available(s.count, s.owner, s.creds[p])
    ensures Alone(path, p) && path[0] == s
    ensures var t := path[|path| - 1]; t.pcs == s.pcs[p := Holder] && t.count == s.count + 1
  {
    var nb := s.pcs[p].nonblock;
    var s1 := s.(pcs := s.pcs[p := Prepare(nb)]);
    var s2 := s1.(pcs := s1.pcs[p := Test(nb)]);
    var s3 := s2.(count := s.count + 1, owner := NewOwner(s.count, s.owner, s.creds[p]), pcs := s2.pcs[p := Holder]);
    path := [s, s1, s2, s3];
  }

  /** A release gives one opening back, and the last one wakes every sleeper. */
  lemma ReleaseRuns(s: State, p: Pid) returns (path: seq<State>)
    requires Inv(s) && p in s.pcs && p in s.creds && s.pcs[p].Holder?
    ensures Alone(path, p) && path[0] == s
    ensures var t := path[|path| - 1];
            && t.count == s.count - 1 && t.owner == s.owner && t.pcs.Keys == s.pcs.Keys && t.pcs[p].Out?
            && (OpenedBy(s) != {p} ==> t.pcs == s.pcs[p := Out])
            && (OpenedBy(s) == {p} ==> forall q :: q in s.pcs && q != p ==>
                  if s.pcs[q].Sleep? then t.pcs[q] == Sleep(s.pcs[q].nonblock, true)
                  else t.pcs[q] == s.pcs[q] || (s.pcs[q].Check? && t.pcs[q] == Check(s.pcs[q].nonblock, true)))
  {
    OnlyHolder(s, p);
    hide Inv, OpenedBy;
    var s1 := s.(count := s.count - 1, pcs := s.pcs[p := Released(s.count - 1)]);
    var s2 := if s.count == 1 then s1.(pcs := map q | q in s1.pcs :: if q == p then Out else Wake(s1.pcs[q]))
              else s1.(pcs := s1.pcs[p := Out]);
    assert s1.pcs[p := Out] == s.pcs[p := Out];
    path := [s, s1, s2];
  }

  lemma OnlyHolder(s: State, p: Pid)
    requires Inv(s) && p in s.pcs && s.pcs[p].Holder?
    ensures s.count == 1 <==> OpenedBy(s) == {p}
  {
    assert p in OpenedBy(s);
    var rest := OpenedBy(s) - {p};
    assert OpenedBy(s) == rest + {p} && |OpenedBy(s)| == |rest| + 1;
  }

  // ----- the single-open device, undisturbed -----

  /** An open on a free device succeeds in one step, one on a held device undoes its decrement; a release frees it. */
  lemma SingleCallsRun(run: seq<Single>, i: nat, p: Pid) returns (s1: Single, s2: Single)
    requires IsSingleRun(run) && i < |run| && p in run[i].pcs && !run[i].pcs[p].Refused?
    ensures SingleStep(run[i], p, s1)
    ensures var s := run[i];
            if s.pcs[p].Inside? then s1.pcs == s.pcs[p := Outside] && (Undoing(s) == {} ==> s1.available == 1)
            else if Holders(s) == {} && Undoing(s) == {} then s1.pcs == s.pcs[p := Inside] && s1.available == 0
            else SingleStep(s1, p, s2) && s2 == s
  {
    SingleExclusion(run, i);
    SingleConservation(run, i);
    var s := run[i];
    if s.pcs[p].Inside? {
      InsideCounts(s, p);
      hide Holders, Undoing;
      s1 := Single(s.available + 1, s.pcs[p := Outside]);
      s2 := s1;
    } else {
      hide Holders, Undoing;
      s1 := Single(s.available - 1, s.pcs[p := if s.available - 1 == 0 then Inside else SinglePc.Refused]);
      s2 := Single(s.available, s1.pcs[p := Outside]);
      assert s1.pcs[p := Outside] == s.pcs;
    }
  }

  lemma InsideCounts(s: Single, p: Pid)
    requires p in s.pcs && s.pcs[p].Inside?
    ensures |Holders(s)| >= 1
  {
    assert p in Holders(s);
  }
}
