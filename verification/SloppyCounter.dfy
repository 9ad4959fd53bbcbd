/** The sloppy counter: per-CPU counters flushed into a global one under two levels of lock. */
module SloppyCounter {
  import opened Common

  type Tid = nat

  datatype Pc =
    | Idle
    // update
    | WantLocal(cpu: nat, amt: int)   // 28
    | HaveLocal(cpu: nat, amt: int)   // 29: holds llock
    | Added(cpu: nat)                 // 30: holds llock, about to compare with the threshold
    | WantGlobal(cpu: nat)            // 31: holds llock
    | HaveGlobal(cpu: nat)            // 32: holds both locks
    | Transferred(cpu: nat)           // 33: holds both locks, global already increased
    | Resetting(cpu: nat)             // 34: holds llock, local not yet zero
    | Finishing(cpu: nat)             // 36: holds llock
    // get
    | GetWant                         // 40
    | GetHave                         // 41: holds glock
    | GetRead(val: int)               // 42: holds glock

  /**
   * `total` is everything added so far; `moved[c]` says that local[c] is already contained in global.
   * The program stores neither.
   */
  datatype Counter = Counter(
    threshold: int,
    global: int,
    glock: Option<Tid>,
    local: seq<int>,
    llock: seq<Option<Tid>>,
    pcs: map<Tid, Pc>,
    moved: seq<bool>,
    total: int)

  predicate Shaped(s: Counter) {
    |s.local| == |s.llock| == |s.moved|
  }

  predicate UsesCpu(pc: Pc, c: nat) {
    (pc.HaveLocal? || pc.Added? || pc.WantGlobal? || pc.HaveGlobal? || pc.Transferred? || pc.Resetting? || pc.Finishing?)
    && pc.cpu == c
  }

  predicate UsesGlobal(pc: Pc) {
    pc.HaveGlobal? || pc.Transferred? || pc.GetHave? || pc.GetRead?
  }

  // ----- the steps -----

  predicate Goes(s: Counter, t: Tid, pc: Pc, s': Counter) {
    s' == s.(pcs := s.pcs[t := pc])
  }

  /** One step of thread t, whose amounts lie in [0, max]. */
  ghost predicate Step(s: Counter, t: Tid, max: int, s': Counter) {
    && Shaped(s) && t in s.pcs
    && match s.pcs[t]
       case Idle =>
         || (exists cpu: nat, amt :: cpu < |s.local| && 0 <= amt <= max && Goes(s, t, WantLocal(cpu, amt), s'))
         || Goes(s, t, GetWant, s')
       case WantLocal(c, amt) =>
         c < |s.local| && s.llock[c] == None
         && s' == s.(llock := s.llock[c := Some(t)], pcs := s.pcs[t := HaveLocal(c, amt)])
       case HaveLocal(c, amt) =>
         c < |s.local|
         && s' == s.(local := s.local[c := s.local[c] + amt], total := s.total + amt, pcs := s.pcs[t := Added(c)])
       case Added(c) =>
         c < |s.local| && Goes(s, t, if s.local[c] >= s.threshold then WantGlobal(c) else Finishing(c), s')
       case WantGlobal(c) =>
         s.glock == None && s' == s.(glock := Some(t), pcs := s.pcs[t := HaveGlobal(c)])
       case HaveGlobal(c) =>
         c < |s.local|
         && s' == s.(global := s.global + s.local[c], moved := s.moved[c := true], pcs := s.pcs[t := Transferred(c)])
       case Transferred(c) =>
         s' == s.(glock := None, pcs := s.pcs[t := Resetting(c)])
       case Resetting(c) =>
         c < |s.local|
         && s' == s.(local := s.local[c := 0], moved := s.moved[c := false], pcs := s.pcs[t := Finishing(c)])
       case Finishing(c) =>
         c < |s.local| && s' == s.(llock := s.llock[c := None], pcs := s.pcs[t := Idle])
       case GetWant => s.glock == None && s' == s.(glock := Some(t), pcs := s.pcs[t := GetHave])
       case GetHave => Goes(s, t, GetRead(s.global), s')
       case GetRead(val) => s' == s.(glock := None, pcs := s.pcs[t := Idle])
  }

  ghost predicate Next(s: Counter, max: int, s': Counter) {
    exists t :: Step(s, t, max, s')
  }

  /** init with any number of CPUs. */
  ghost predicate Init(s: Counter) {
    && Shaped(s) && s.global == 0 && s.total == 0 && s.glock == None
    && (forall c :: 0 <= c < |s.local| ==> s.local[c] == 0 && s.llock[c] == None && !s.moved[c])
    && (forall t :: t in s.pcs ==> s.pcs[t] == Idle)
  }

  ghost predicate IsRun(run: seq<Counter>, max: int) {
    && |run| > 0 && Init(run[0])
    && forall i :: 0 < i < |run| ==> Next(run[i - 1], max, run[i])
  }

  // ----- what is not yet in the global counter -----

  function Pending(local: seq<int>, moved: seq<bool>): int
    requires |local| == |moved|
  {
    if local == [] then 0
    else
      var n := |local| - 1;
      Pending(local[..n], moved[..n]) + if moved[n] then 0 else local[n]
  }

  function Share(x: int, moved: bool): int { if moved then 0 else x }

  lemma {:induction false} PendingUpdate(local: seq<int>, moved: seq<bool>, c: nat, x: int, m: bool)
    requires |local| == |moved| && c < |local|
    ensures Pending(local[c := x], moved[c := m]) == Pending(local, moved) - Share(local[c], moved[c]) + Share(x, m)
  {
    var n := |local| - 1;
    if c < n {
      PendingUpdate(local[..n], moved[..n], c, x, m);
      assert local[c := x][..n] == local[..n][c := x] && moved[c := m][..n] == moved[..n][c := m];
    } else {
      assert local[c := x][..n] == local[..n] && moved[c := m][..n] == moved[..n];
    }
  }

  lemma {:induction false} PendingBounds(local: seq<int>, moved: seq<bool>, bound: int)
    requires |local| == |moved| && bound >= 0
    requires forall c :: 0 <= c < |local| ==> 0 <= local[c] <= bound
    ensures 0 <= Pending(local, moved) <= |local| * bound
  {
    if local != [] {
      var n := |local| - 1;
      PendingBounds(local[..n], moved[..n], bound);
      assert (n + 1) * bound == n * bound + bound;
    }
  }

  lemma {:induction false} PendingZero(local: seq<int>, moved: seq<bool>)
    requires |local| == |moved| && forall c :: 0 <= c < |local| ==> local[c] == 0
    ensures Pending(local, moved) == 0
  {
    if local != [] {
      PendingZero(local[..|local| - 1], moved[..|local| - 1]);
    }
  }

  // ----- the invariant -----

  ghost predicate LocalLocks(s: Counter)
    requires Shaped(s)
  {
    && (forall t, c :: t in s.pcs && 0 <= c < |s.local| ==> (UsesCpu(s.pcs[t], c) <==> s.llock[c] == Some(t)))
    && (forall c :: 0 <= c < |s.local| && s.llock[c].Some? ==> s.llock[c].value in s.pcs)
  }

  ghost predicate GlobalLock(s: Counter) {
    forall t :: t in s.pcs ==> (UsesGlobal(s.pcs[t]) <==> s.glock == Some(t))
  }

  predicate AmountOk(pc: Pc, max: int) {
    pc.WantLocal? || pc.HaveLocal? ==> 0 <= pc.amt <= max
  }

  /** The local counter of CPU c is below the threshold except while its holder is flushing it. */
  ghost predicate LocalOk(s: Counter, max: int, c: nat)
    requires Shaped(s) && c < |s.local|
  {
    && 0 <= s.local[c] <= s.threshold - 1 + max
    && (s.llock[c].None? ==> s.local[c] <= s.threshold - 1 && !s.moved[c])
    && (s.llock[c].Some? && s.llock[c].value in s.pcs ==>
          var pc := s.pcs[s.llock[c].value];
          && (pc.HaveLocal? || pc.Finishing? ==> s.local[c] <= s.threshold - 1)
          && (s.moved[c] <==> pc.Transferred? || pc.Resetting?))
  }

  ghost predicate Inv(s: Counter, max: int) {
    && Shaped(s) && s.threshold > 0 && max >= 0
    && LocalLocks(s) && GlobalLock(s)
    && (forall t :: t in s.pcs ==> AmountOk(s.pcs[t], max))
    && (forall c :: 0 <= c < |s.local| ==> LocalOk(s, max, c))
    && s.total == s.global + Pending(s.local, s.moved)
  }

  lemma StepKeepsLocalLocks(s: Counter, t: Tid, max: int, s': Counter)
    requires Step(s, t, max, s') && LocalLocks(s)
    ensures Shaped(s') && LocalLocks(s') && s'.threshold == s.threshold && |s'.local| == |s.local|
  {
    forall u, c | u in s'.pcs && 0 <= c < |s'.local|
      ensures UsesCpu(s'.pcs[u], c) <==> s'.llock[c] == Some(u)
    {
      StepKeepsLocalLock(s, t, max, s', u, c);
    }
  }

  lemma StepKeepsLocalLock(s: Counter, t: Tid, max: int, s': Counter, u: Tid, c: nat)
    requires Step(s, t, max, s') && LocalLocks(s) && u in s.pcs && c < |s.local|
    ensures Shaped(s') && |s'.local| == |s.local| && u in s'.pcs
    ensures UsesCpu(s'.pcs[u], c) <==> s'.llock[c] == Some(u)
  {
    assert UsesCpu(s.pcs[u], c) <==> s.llock[c] == Some(u);
    assert UsesCpu(s.pcs[t], c) <==> s.llock[c] == Some(t);
  }

  lemma StepKeepsGlobalLock(s: Counter, t: Tid, max: int, s': Counter)
    requires Step(s, t, max, s') && GlobalLock(s)
    ensures GlobalLock(s')
  {
  }

  lemma StepKeepsAmounts(s: Counter, t: Tid, max: int, s': Counter)
    requires Step(s, t, max, s')
    requires forall u :: u in s.pcs ==> AmountOk(s.pcs[u], max)
    ensures forall u :: u in s'.pcs ==> AmountOk(s'.pcs[u], max)
  {
  }

  lemma StepKeepsLocal(s: Counter, t: Tid, max: int, s': Counter, c: nat)
    requires Inv(s, max) && Step(s, t, max, s') && Shaped(s') && |s'.local| == |s.local| && c < |s.local|
    ensures LocalOk(s', max, c)
  {
    assert LocalOk(s, max, c);
  }

  /** Nothing is lost or counted twice: every step moves the same amount on both sides. */
  lemma StepKeepsTotal(s: Counter, t: Tid, max: int, s': Counter)
    requires Inv(s, max) && Step(s, t, max, s')
    ensures Shaped(s') && s'.total == s'.global + Pending(s'.local, s'.moved)
  {
    var pc := s.pcs[t];
    if pc.HaveLocal? || pc.HaveGlobal? || pc.Resetting? {
      var c := pc.cpu;
      assert UsesCpu(pc, c) && s.llock[c] == Some(t);
      assert LocalOk(s, max, c);
      assert s'.local == s.local[c := s'.local[c]] && s'.moved == s.moved[c := s'.moved[c]];
      PendingUpdate(s.local, s.moved, c, s'.local[c], s'.moved[c]);
    } else {
      assert s'.local == s.local && s'.moved == s.moved && s'.total == s.total && s'.global == s.global;
    }
  }

  lemma {:induction false} RunKeepsInv(run: seq<Counter>, max: int, i: nat)
    requires IsRun(run, max) && i < |run| && run[0].threshold > 0 && max >= 0
    ensures Inv(run[i], max) && run[i].threshold == run[0].threshold && |run[i].local| == |run[0].local|
  {
    if i == 0 {
      PendingZero(run[0].local, run[0].moved);
    } else {
      RunKeepsInv(run, max, i - 1);
      assert Next(run[i - 1], max, run[i]);
      var t :| Step(run[i - 1], t, max, run[i]);
      StepKeepsLocalLocks(run[i - 1], t, max, run[i]);
      StepKeepsGlobalLock(run[i - 1], t, max, run[i]);
      StepKeepsAmounts(run[i - 1], t, max, run[i]);
      StepKeepsTotal(run[i - 1], t, max, run[i]);
      forall c | 0 <= c < |run[i].local|
        ensures LocalOk(run[i], max, c)
      {
        StepKeepsLocal(run[i - 1], t, max, run[i], c);
      }
    }
  }

  /** In every interleaving the global counter lags behind the true total, by a bounded amount. */
  lemma GlobalLagsBounded(run: seq<Counter>, max: int, i: nat)
    requires IsRun(run, max) && i < |run| && run[0].threshold > 0 && max >= 0
    ensures var s := run[i]; 0 <= s.total - s.global <= |s.local| * (s.threshold - 1 + max)
  {
    RunKeepsInv(run, max, i);
    var s := run[i];
    forall c | 0 <= c < |s.local|
      ensures 0 <= s.local[c] <= s.threshold - 1 + max
    {
      assert LocalOk(s, max, c);
    }
    PendingBounds(s.local, s.moved, s.threshold - 1 + max);
  }

  predicate Updating(pc: Pc) {
    pc.HaveLocal? || pc.Added? || pc.WantGlobal? || pc.HaveGlobal? || pc.Transferred? || pc.Resetting? || pc.Finishing?
  }

  /** With no update past its local lock the lag is below the thresholds alone. */
  lemma QuietLag(run: seq<Counter>, max: int, i: nat)
    requires IsRun(run, max) && i < |run| && run[0].threshold > 0 && max >= 0
    requires forall t :: t in run[i].pcs ==> !Updating(run[i].pcs[t])
    ensures var s := run[i]; 0 <= s.total - s.global <= |s.local| * (s.threshold - 1)
  {
    RunKeepsInv(run, max, i);
    var s := run[i];
    forall c | 0 <= c < |s.local|
      ensures 0 <= s.local[c] <= s.threshold - 1
    {
      assert LocalOk(s, max, c);
    }
    PendingBounds(s.local, s.moved, s.threshold - 1);
  }

  /** What get is about to return never exceeds the true total, and lags by the same bound when it is read. */
  lemma GetIsCloseToTotal(run: seq<Counter>, max: int, i: nat, t: Tid)
    requires IsRun(run, max) && 0 < i < |run| && run[0].threshold > 0 && max >= 0
    requires t in run[i - 1].pcs && run[i - 1].pcs[t].GetHave? && t in run[i].pcs && run[i].pcs[t].GetRead?
    ensures var s, val := run[i], run[i].pcs[t].val; 0 <= s.total - val <= |s.local| * (s.threshold - 1 + max)
  {
    GlobalLagsBounded(run, max, i);
    assert Next(run[i - 1], max, run[i]);
  }

  // ----- transfers are never small -----

  /** A thread on its way to the global counter has a full local one. */
  ghost predicate FullFlushes(s: Counter)
    requires Shaped(s)
  {
    forall t :: t in s.pcs && (s.pcs[t].WantGlobal? || s.pcs[t].HaveGlobal?) ==>
      s.pcs[t].cpu < |s.local| && s.local[s.pcs[t].cpu] >= s.threshold
  }

  lemma StepKeepsFullFlushes(s: Counter, t: Tid, max: int, s': Counter)
    requires Inv(s, max) && Step(s, t, max, s') && FullFlushes(s) && Shaped(s') && |s'.local| == |s.local|
    ensures FullFlushes(s')
  {
    forall u | u in s'.pcs && (s'.pcs[u].WantGlobal? || s'.pcs[u].HaveGlobal?)
      ensures s'.pcs[u].cpu < |s'.local| && s'.local[s'.pcs[u].cpu] >= s'.threshold
    {
      if u != t {
        assert s.pcs[u] == s'.pcs[u];
        var c := s.pcs[u].cpu;
        assert UsesCpu(s.pcs[u], c) && s.llock[c] == Some(u);
        assert UsesCpu(s.pcs[t], c) ==> s.llock[c] == Some(t);
      }
    }
  }

  lemma {:induction false} RunKeepsFullFlushes(run: seq<Counter>, max: int, i: nat)
    requires IsRun(run, max) && i < |run| && run[0].threshold > 0 && max >= 0
    ensures Shaped(run[i]) && FullFlushes(run[i])
  {
    RunKeepsInv(run, max, i);
    if i > 0 {
      RunKeepsFullFlushes(run, max, i - 1);
      RunKeepsInv(run, max, i - 1);
      assert Next(run[i - 1], max, run[i]);
      var t :| Step(run[i - 1], t, max, run[i]);
      hide Inv, Step, FullFlushes;
      StepKeepsFullFlushes(run[i - 1], t, max, run[i]);
    }
  }

  /** The global counter changes only by the transfer of a local one that has reached the threshold. */
  lemma GlobalGrowsByThreshold(run: seq<Counter>, max: int, i: nat)
    requires IsRun(run, max) && 0 < i < |run| && run[0].threshold > 0 && max >= 0
    ensures run[i].global == run[i - 1].global || run[i].global >= run[i - 1].global + run[0].threshold
  {
    RunKeepsFullFlushes(run, max, i - 1);
    RunKeepsInv(run, max, i - 1);
    assert Next(run[i - 1], max, run[i]);
  }

  // ----- undisturbed calls -----

  /** t takes these steps, one after the other. */
  ghost predicate Alone(path: seq<Counter>, t: Tid, max: int) {
    |path| > 0 && forall i :: 0 < i < |path| ==> Step(path[i - 1], t, max, path[i])
  }

  lemma JoinAlone(a: seq<Counter>, b: seq<Counter>, t: Tid, max: int)
    requires Alone(a, t, max) && Alone(b, t, max) && Step(a[|a| - 1], t, max, b[0])
    ensures Alone(a + b, t, max)
  {
  }

  /** From the comparison on: a full local counter is moved to the global one. */
  lemma FlushRuns(s: Counter, t: Tid, c: nat, max: int) returns (path: seq<Counter>)
    requires Shaped(s) && t in s.pcs && c < |s.local| && s.pcs[t] == WantGlobal(c)
    requires s.glock == None && !s.moved[c]
    ensures Alone(path, t, max) && path[0] == s
    ensures path[|path| - 1] ==
            s.(local := s.local[c := 0], global := s.global + s.local[c], llock := s.llock[c := None], pcs := s.pcs[t := Idle])
  {
    var s5 := s.(glock := Some(t), pcs := s.pcs[t := HaveGlobal(c)]);
    var s6 := s5.(global := s.global + s.local[c], moved := s.moved[c := true], pcs := s5.pcs[t := Transferred(c)]);
    var s7 := s6.(glock := None, pcs := s6.pcs[t := Resetting(c)]);
    var s8 := s7.(local := s.local[c := 0], moved := s7.moved[c := false], pcs := s7.pcs[t := Finishing(c)]);
    var s9 := s8.(llock := s.llock[c := None], pcs := s8.pcs[t := Idle]);
    assert s7.moved[c := false] == s.moved && s9.pcs == s.pcs[t := Idle];
    path := [s, s5, s6, s7, s8, s9];
  }

  /** An update that nobody disturbs adds its amount to the local counter, or moves a full one to the global. */
  lemma UpdateRuns(s: Counter, t: Tid, c: nat, amt: int, max: int) returns (path: seq<Counter>)
    requires Shaped(s) && t in s.pcs && s.pcs[t].Idle? && c < |s.local| && 0 <= amt <= max
    requires s.glock == None && s.llock[c] == None && !s.moved[c]
    ensures Alone(path, t, max) && path[0] == s
    ensures var sum := s.local[c] + amt;
            path[|path| - 1] ==
            if sum >= s.threshold then s.(local := s.local[c := 0], global := s.global + sum, total := s.total + amt)
            else s.(local := s.local[c := sum], total := s.total + amt)
  {
    var sum := s.local[c] + amt;
    var s1 := s.(pcs := s.pcs[t := WantLocal(c, amt)]);
    assert Goes(s, t, WantLocal(c, amt), s1);
    var s2 := s1.(llock := s.llock[c := Some(t)], pcs := s1.pcs[t := HaveLocal(c, amt)]);
    var s3 := s2.(local := s.local[c := sum], total := s.total + amt, pcs := s2.pcs[t := Added(c)]);
    var s4 := s3.(pcs := s3.pcs[t := if sum >= s.threshold then WantGlobal(c) else Finishing(c)]);
    assert Alone([s, s1, s2, s3], t, max) && Step(s3, t, max, s4);
    assert s2.llock[c := None] == s.llock && s4.pcs[t := Idle] == s.pcs;
    if sum >= s.threshold {
      hide Step;
      var rest := FlushRuns(s4, t, c, max);
      JoinAlone([s, s1, s2, s3], rest, t, max);
      path := [s, s1, s2, s3] + rest;
    } else {
      var s5 := s4.(llock := s.llock, pcs := s.pcs);
      path := [s, s1, s2, s3, s4, s5];
    }
  }

  /** A get that nobody disturbs is about to return the global counter, and leaves everything as it was. */
  lemma GetRuns(s: Counter, t: Tid, max: int) returns (path: seq<Counter>)
    requires Shaped(s) && t in s.pcs && s.pcs[t].Idle? && s.glock == None
    ensures Alone(path, t, max) && path[0] == s && |path| == 5 && path[4] == s
    ensures t in path[3].pcs && path[3].pcs[t] == GetRead(s.global)
  {
    var s1 := s.(pcs := s.pcs[t := GetWant]);
    var s2 := s1.(glock := Some(t), pcs := s.pcs[t := GetHave]);
    var s3 := s2.(pcs := s.pcs[t := GetRead(s.global)]);
    assert Goes(s, t, GetWant, s1);
    assert s.pcs[t := Idle] == s.pcs;
    path := [s, s1, s2, s3, s];
  }

  // ----- the two levels of locks cannot deadlock -----

  lemma {:induction false} HolderIsKnown(run: seq<Counter>, max: int, i: nat)
    requires IsRun(run, max) && i < |run|
    ensures run[i].glock.Some? ==> run[i].glock.value in run[i].pcs
  {
    if i > 0 {
      HolderIsKnown(run, max, i - 1);
      assert Next(run[i - 1], max, run[i]);
    }
  }

  ghost predicate CanGoOn(s: Counter, t: Tid, max: int) { exists s' :: Step(s, t, max, s') }

  /** Only a lock in use keeps a thread inside a call from going on. */
  lemma GoesOn(s: Counter, t: Tid, max: int)
    requires Shaped(s) && t in s.pcs && !s.pcs[t].Idle?
    requires !s.pcs[t].GetWant? && !s.pcs[t].GetHave? && !s.pcs[t].GetRead? ==> s.pcs[t].cpu < |s.local|
    requires s.pcs[t].WantLocal? ==> s.llock[s.pcs[t].cpu] == None
    requires s.pcs[t].WantGlobal? || s.pcs[t].GetWant? ==> s.glock == None
    ensures CanGoOn(s, t, max)
  {
    var s' := match s.pcs[t]
      case WantLocal(c, amt) => s.(llock := s.llock[c := Some(t)], pcs := s.pcs[t := HaveLocal(c, amt)])
      case HaveLocal(c, amt) =>
        s.(local := s.local[c := s.local[c] + amt], total := s.total + amt, pcs := s.pcs[t := Added(c)])
      case Added(c) => s.(pcs := s.pcs[t := if s.local[c] >= s.threshold then WantGlobal(c) else Finishing(c)])
      case WantGlobal(c) => s.(glock := Some(t), pcs := s.pcs[t := HaveGlobal(c)])
      case HaveGlobal(c) =>
        s.(global := s.global + s.local[c], moved := s.moved[c := true], pcs := s.pcs[t := Transferred(c)])
      case Transferred(c) => s.(glock := None, pcs := s.pcs[t := Resetting(c)])
      case Resetting(c) => s.(local := s.local[c := 0], moved := s.moved[c := false], pcs := s.pcs[t := Finishing(c)])
      case Finishing(c) => s.(llock := s.llock[c := None], pcs := s.pcs[t := Idle])
      case GetWant => s.(glock := Some(t), pcs := s.pcs[t := GetHave])
      case GetHave => s.(pcs := s.pcs[t := GetRead(s.global)])
      case _ => s.(glock := None, pcs := s.pcs[t := Idle]);
    assert Step(s, t, max, s');
  }

  /** Every CPU that a thread names exists. */
  lemma {:induction false} CpusExist(run: seq<Counter>, max: int, i: nat)
    requires IsRun(run, max) && i < |run|
    ensures Shaped(run[i]) && |run[i].local| == |run[0].local|
    ensures forall t :: t in run[i].pcs ==>
      var pc := run[i].pcs[t]; pc.Idle? || pc.GetWant? || pc.GetHave? || pc.GetRead? || pc.cpu < |run[i].local|
  {
    if i > 0 {
      CpusExist(run, max, i - 1);
      assert Next(run[i - 1], max, run[i]);
    }
  }

  /** As long as some thread is inside a call, some thread inside a call can go on. */
  lemma NoDeadlock(run: seq<Counter>, max: int, i: nat, t: Tid) returns (u: Tid)
    requires IsRun(run, max) && i < |run| && run[0].threshold > 0 && max >= 0
    requires t in run[i].pcs && !run[i].pcs[t].Idle?
    ensures u in run[i].pcs && !run[i].pcs[u].Idle? && CanGoOn(run[i], u, max)
  {
    var s := run[i];
    RunKeepsInv(run, max, i);
    HolderIsKnown(run, max, i);
    CpusExist(run, max, i);
    hide CanGoOn;
    if s.glock.Some? {
      u := s.glock.value;
      assert UsesGlobal(s.pcs[u]);
    } else if s.pcs[t].WantLocal? && s.llock[s.pcs[t].cpu].Some? {
      u := s.llock[s.pcs[t].cpu].value;
      assert UsesCpu(s.pcs[u], s.pcs[t].cpu);
    } else {
      u := t;
    }
    GoesOn(s, u, max);
  }
}
