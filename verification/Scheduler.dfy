/** The clock interrupt and the priority scheduler of the small kernel: exact proportional shares. */
module Scheduler {

  /**
   * `ready` is the index that p_proc_ready points at. `ran` counts the clock interrupts charged to each
   * process and `epochs` the refills; the kernel does not store these two.
   */
  datatype Sched = Sched(ticks: seq<int>, priority: seq<int>, ready: nat, ran: seq<int>, epochs: nat) {
    predicate Shaped() {
      && |ticks| == |priority| == |ran|
      && ready < |ticks|
    }
  }

  // ----- what schedule() chooses -----

  /** The first process with the largest positive number of ticks. */
  ghost predicate Chosen(ticks: seq<int>, i: nat) {
    && i < |ticks| && ticks[i] > 0
    && (forall j :: 0 <= j < |ticks| ==> ticks[j] <= ticks[i])
    && (forall j :: 0 <= j < i ==> ticks[j] < ticks[i])
  }

  ghost predicate SomePositive(xs: seq<int>) {
    exists i :: 0 <= i < |xs| && xs[i] > 0
  }

  /** The index of the first maximum. */
  function FirstMax(xs: seq<int>): (m: nat)
    requires xs != []
    ensures m < |xs|
    ensures forall j :: 0 <= j < |xs| ==> xs[j] <= xs[m]
    ensures forall j :: 0 <= j < m ==> xs[j] < xs[m]
  {
    if |xs| == 1 then 0
    else
      var m := FirstMax(xs[..|xs| - 1]);
      if xs[|xs| - 1] > xs[m] then |xs| - 1 else m
  }

  lemma FirstMaxIsChosen(ticks: seq<int>)
    requires SomePositive(ticks)
    ensures Chosen(ticks, FirstMax(ticks))
    ensures forall i: nat :: Chosen(ticks, i) ==> i == FirstMax(ticks)
  {
  }

  /** schedule(), without its loops. */
  function Rescheduled(s: Sched): Sched
    requires s.Shaped()
  {
    if s.ticks[FirstMax(s.ticks)] > 0 then s.(ready := FirstMax(s.ticks))
    else s.(ticks := s.priority, ready := FirstMax(s.priority), epochs := s.epochs + 1)
  }

  /** A successful scan, before or after one refill, is the outcome of schedule(). */
  lemma RescheduledChooses(s: Sched, before: Sched, after: Sched)
    requires s.Shaped() && |before.ticks| == |s.ticks| && Chosen(after.ticks, after.ready)
    requires after == before.(ready := after.ready)
    requires before == s || (!SomePositive(s.ticks) && before == s.(ticks := s.priority, epochs := s.epochs + 1))
    ensures after == Rescheduled(s)
  {
    FirstMaxIsChosen(after.ticks);
    if before == s {
      FirstMaxIsChosen(s.ticks);
    }
  }

  /** The interrupt is charged to the ready process. */
  function Charged(s: Sched): Sched
    requires s.Shaped()
  {
    s.(ticks := s.ticks[s.ready := s.ticks[s.ready] - 1], ran := s.ran[s.ready := s.ran[s.ready] + 1])
  }

  /** clock_handler with k_reenter == 0. */
  function Tick(s: Sched): Sched
    requires s.Shaped()
  {
    if s.ticks[s.ready] - 1 > 0 then Charged(s) else Rescheduled(Charged(s))
  }

  // ----- the kernel's own loops -----

  class Kernel {
    const n: nat
    const ticks: array<int>
    const priority: array<int>
    var ready: nat
    ghost var ran: seq<int>
    ghost var epochs: nat

    ghost predicate Valid()
      reads this
    {
      && ticks.Length == priority.Length == n && ticks != priority
      && ready < n && |ran| == n
    }

    ghost function View(): Sched
      reads this, ticks, priority
    {
      Sched(ticks[..], priority[..], ready, ran, epochs)
    }

    /** Every process starts with its full quota; the first process of the table is ready. */
    constructor (priorities: seq<int>)
      requires priorities != []
      ensures Valid() && fresh(ticks) && fresh(priority)
      ensures View() == Initial(priorities, 0)
    {
      n := |priorities|;
      ticks := new int[|priorities|](i requires 0 <= i < |priorities| => priorities[i]);
      priority := new int[|priorities|](i requires 0 <= i < |priorities| => priorities[i]);
      ready := 0;
      ran := seq(|priorities|, _ => 0);
      epochs := 0;
    }

    /** The loop ends because one refill makes the priorities the ticks: it goes round at most twice. */
    method Schedule() returns (rounds: nat)
      requires Valid()
      requires SomePositive(ticks[..]) || SomePositive(priority[..])
      modifies this`ready, this`epochs, ticks
      ensures Valid() && View() == Rescheduled(old(View()))
      ensures rounds <= 2 && (rounds == 1 <==> SomePositive(old(ticks[..])))
    {
      var greatest := 0;
      rounds := 0;
      while greatest == 0
        invariant Valid() && priority[..] == old(priority[..]) && greatest >= 0
        invariant rounds == 0 ==> View() == old(View()) && greatest == 0
        invariant rounds == 1 && greatest == 0 ==>
          !SomePositive(old(ticks[..])) && View() == old(View()).(ticks := priority[..], epochs := old(epochs) + 1)
        invariant rounds <= 2 && (greatest == 0 ==> rounds <= 1)
        invariant greatest > 0 ==> Chosen(ticks[..], ready) && View() == Rescheduled(old(View()))
        invariant greatest > 0 ==> (rounds == 1 <==> SomePositive(old(ticks[..])))
        decreases 2 - rounds
      {
        hide FirstMax, Rescheduled;
        ghost var before := View();
        greatest := Scan();
        rounds := rounds + 1;
        if greatest == 0 {
          Refill();
        } else {
          RescheduledChooses(old(View()), before, View());
        }
      }
    }

    /** Every process gets its whole quota again. */
    method Refill()
      requires Valid()
      modifies ticks, this`epochs
      ensures Valid() && View() == old(View()).(ticks := priority[..], epochs := old(epochs) + 1)
    {
      for p := 0 to n
        modifies ticks
        invariant ticks[..p] == priority[..p]
      {
        ticks[p] := priority[p];
      }
      assert ticks[..] == priority[..];
      epochs := epochs + 1;
    }

    /** The scan over the process table; 0 means that no process has ticks left. */
    method Scan() returns (greatest: int)
      requires Valid()
      modifies this`ready
      ensures Valid()
      ensures greatest >= 0 && (greatest > 0 <==> SomePositive(ticks[..]))
      ensures greatest > 0 ==> Chosen(ticks[..], ready) && greatest == ticks[ready]
      ensures greatest == 0 ==> ready == old(ready)
    {
      greatest := 0;
      for p := 0 to n
        invariant Valid() && greatest >= 0
        invariant forall j :: 0 <= j < p ==> ticks[j] <= greatest
        invariant greatest > 0 ==> Chosen(ticks[..p], ready) && greatest == ticks[ready]
        invariant greatest == 0 ==> ready == old(ready)
      {
        if ticks[p] > greatest {
          greatest := ticks[p];
          ready := p;
        }
      }
      assert ticks[..n] == ticks[..];
    }

    /** The clock interrupt, not nested in another one. */
    method ClockHandler()
      requires Valid()
      requires SomePositive(priority[..])
      modifies this`ready, this`ran, this`epochs, ticks
      ensures Valid() && View() == Tick(old(View()))
    {
      ghost var s := View();
      ticks[ready] := ticks[ready] - 1;
      ran := ran[ready := ran[ready] + 1];
      assert View() == Charged(s);
      if ticks[ready] > 0 {
        return;
      }
      var _ := Schedule();
    }
  }

  // ----- the invariant of every run -----

  function Initial(priority: seq<int>, first: nat): Sched
  {
    Sched(priority, priority, first, seq(|priority|, _ => 0), 0)
  }

  /** The state after k clock interrupts. */
  function After(priority: seq<int>, first: nat, k: nat): (s: Sched)
    requires first < |priority|
    ensures s.Shaped() && s.priority == priority
  {
    if k == 0 then Initial(priority, first)
    else
      var s := After(priority, first, k - 1);
      Tick(s)
  }

  /** The law of process i. */
  predicate FairShare(s: Sched, i: nat)
    requires s.Shaped() && i < |s.ticks|
  {
    s.ran[i] == s.epochs * s.priority[i] + (s.priority[i] - s.ticks[i])
  }

  /** The ready process is inside its quota; every other process has all of its quota or none. */
  ghost predicate Inv(s: Sched) {
    && s.Shaped()
    && 0 < s.ticks[s.ready] <= s.priority[s.ready]
    && (forall i :: 0 <= i < |s.ticks| && i != s.ready ==> s.ticks[i] == 0 || s.ticks[i] == s.priority[i])
    && (forall i :: 0 <= i < |s.ticks| ==> s.priority[i] >= 0 && FairShare(s, i))
  }

  lemma MulSucc(e: nat, p: int)
    ensures (e + 1) * p == e * p + p
  {
  }

  /** Charging an interrupt and refilling a spent quota both keep the law. */
  lemma ChargeKeepsShare(s: Sched, i: nat)
    requires s.Shaped() && i < |s.ticks| && FairShare(s, i)
    ensures FairShare(Charged(s), i)
  {
  }

  lemma RefillKeepsShare(s: Sched, s': Sched, i: nat)
    requires s.Shaped() && s'.Shaped() && i < |s.ticks| && FairShare(s, i) && s.ticks[i] == 0
    requires s'.ticks == s'.priority == s.priority && s'.ran == s.ran && s'.epochs == s.epochs + 1
    ensures FairShare(s', i)
  {
    MulSucc(s.epochs, s.priority[i]);
  }

  lemma TickKeepsInv(s: Sched)
    requires Inv(s)
    ensures Inv(Tick(s))
  {
    hide FairShare;
    var s1, s2 := Charged(s), Tick(s);
    forall i | 0 <= i < |s.ticks|
      ensures FairShare(s1, i) && FairShare(s2, i)
    {
      ChargeKeepsShare(s, i);
      SwitchOrRefill(s, i);
    }
    assert s2.priority[s2.ready] >= s2.priority[s.ready] || s2.epochs == s.epochs;
  }

  /** One process at a clock interrupt: it keeps its law if it had spent its quota before any refill. */
  lemma SwitchOrRefill(s: Sched, i: nat)
    requires s.Shaped() && i < |s.ticks| && FairShare(Charged(s), i)
    requires Charged(s).ticks[i] >= 0
    ensures FairShare(Tick(s), i)
  {
    var s1, s2 := Charged(s), Tick(s);
    if s2.epochs != s.epochs {
      assert s1.ticks[i] <= s1.ticks[FirstMax(s1.ticks)] <= 0;
      RefillKeepsShare(s1, s2, i);
    } else {
      assert s2.ticks == s1.ticks && s2.ran == s1.ran;
    }
  }

  lemma {:induction false} RunKeepsInv(priority: seq<int>, first: nat, k: nat)
    requires first < |priority| && priority[first] > 0
    requires forall i :: 0 <= i < |priority| ==> priority[i] >= 0
    ensures Inv(After(priority, first, k))
  {
    if k > 0 {
      RunKeepsInv(priority, first, k - 1);
      TickKeepsInv(After(priority, first, k - 1));
    }
  }

  /** After any number of interrupts each process has run exactly its share. */
  lemma ExactShare(priority: seq<int>, first: nat, k: nat, i: nat)
    requires first < |priority| && priority[first] > 0 && i < |priority|
    requires forall j :: 0 <= j < |priority| ==> priority[j] >= 0
    ensures var s := After(priority, first, k);
            && s.ran[i] == s.epochs * priority[i] + (priority[i] - s.ticks[i])
            && 0 <= s.ticks[i] <= priority[i]
  {
    RunKeepsInv(priority, first, k);
    assert FairShare(After(priority, first, k), i);
  }

  /** Whenever the quotas are full again, run times are in the exact ratio of the priorities. */
  lemma ProportionalAtEpochs(priority: seq<int>, first: nat, k: nat, i: nat, j: nat)
    requires first < |priority| && priority[first] > 0 && i < |priority| && j < |priority|
    requires forall l :: 0 <= l < |priority| ==> priority[l] >= 0
    requires After(priority, first, k).ticks == priority
    ensures var s := After(priority, first, k); s.ran[i] * priority[j] == s.ran[j] * priority[i]
  {
    var s := After(priority, first, k);
    ExactShare(priority, first, k, i);
    ExactShare(priority, first, k, j);
    MulAssoc(s.epochs, priority[i], priority[j]);
  }

  lemma MulAssoc(e: nat, a: int, b: int)
    ensures (e * a) * b == (e * b) * a
  {
  }

  /** A refill happens exactly when the last process with ticks uses up its last one. */
  lemma RefillOnlyWhenAllSpent(s: Sched)
    requires Inv(s)
    ensures Tick(s).epochs == s.epochs + 1 <==>
            s.ticks[s.ready] == 1 && forall i :: 0 <= i < |s.ticks| && i != s.ready ==> s.ticks[i] == 0
    ensures Tick(s).epochs == s.epochs + 1 ==> Tick(s).ticks == s.priority
    ensures Tick(s).epochs in {s.epochs, s.epochs + 1}
  {
    var t := s.ticks[s.ready] - 1;
    var ticks := s.ticks[s.ready := t];
    var m := FirstMax(ticks);
    if ticks[m] <= 0 {
      assert forall i :: 0 <= i < |ticks| ==> ticks[i] <= 0;
      assert ticks[s.ready] == t;
      assert forall i :: 0 <= i < |ticks| && i != s.ready ==> ticks[i] == s.ticks[i];
    } else {
      assert m == s.ready ==> t > 0;
    }
  }

  function Ticks(s: Sched, k: nat): (s': Sched)
    requires s.Shaped()
    ensures s'.Shaped()
  {
    if k == 0 then s
    else
      var s' := Ticks(s, k - 1);
      Tick(s')
  }

  /** A process that was switched to has its whole quota, and runs it without interruption. */
  lemma ChosenWithFullQuota(s: Sched)
    requires Inv(s) && (Tick(s).ready != s.ready || Tick(s).epochs != s.epochs)
    ensures Tick(s).ticks[Tick(s).ready] == s.priority[Tick(s).ready]
  {
  }

  /** Whoever is switched to has the most ticks left, and among those it comes first in the table. */
  lemma SwitchesToFirstGreatest(s: Sched)
    requires Inv(s) && s.ticks[s.ready] == 1
    ensures var s' := Tick(s);
            && (forall j :: 0 <= j < |s'.ticks| ==> s'.ticks[j] <= s'.ticks[s'.ready])
            && (forall j :: 0 <= j < s'.ready ==> s'.ticks[j] < s'.ticks[s'.ready])
            && s'.ticks[s'.ready] > 0
  {
    TickKeepsInv(s);
  }

  lemma {:induction false} RunsContiguously(s: Sched, k: nat)
    requires Inv(s) && k < s.ticks[s.ready]
    ensures var s' := Ticks(s, k);
            && s'.ready == s.ready && s'.epochs == s.epochs && s'.ticks == s.ticks[s.ready := s.ticks[s.ready] - k]
  {
    if k > 0 {
      hide FirstMax, FairShare, Rescheduled;
      RunsContiguously(s, k - 1);
      assert Ticks(s, k) == Charged(Ticks(s, k - 1));
    }
  }

  /** A process that is switched to runs its whole quota, and nothing else runs before it is spent. */
  lemma ChosenRunsWholeQuota(s: Sched, k: nat)
    requires Inv(s) && (Tick(s).ready != s.ready || Tick(s).epochs != s.epochs)
    requires k < s.priority[Tick(s).ready]
    ensures var first, now := Tick(s), Ticks(Tick(s), k);
            && now.ready == first.ready && now.epochs == first.epochs
            && now.ticks == first.ticks[first.ready := s.priority[first.ready] - k]
            && (k + 1 == s.priority[first.ready] ==> now.ticks[first.ready] == 1)
  {
    TickKeepsInv(s);
    ChosenWithFullQuota(s);
    RunsContiguously(Tick(s), k);
  }

  // ----- the one start from which the shares are not exact -----

  /** The state of a run that began with a ready process of priority 0, from the first interrupt on. */
  ghost predicate IdleStartInv(s: Sched, first: nat) {
    && s.Shaped() && first < |s.ticks| && s.ready != first
    && s.priority[first] == 0 && s.ran[first] == 1
    && s.ticks[first] == (if s.epochs == 0 then -1 else 0)
    && 0 < s.ticks[s.ready] <= s.priority[s.ready]
    && (forall i :: 0 <= i < |s.ticks| && i != s.ready && i != first ==> s.ticks[i] == 0 || s.ticks[i] == s.priority[i])
    && (forall i :: 0 <= i < |s.ticks| && i != first ==> s.priority[i] >= 0 && FairShare(s, i))
  }

  lemma IdleStartBegins(priority: seq<int>, first: nat)
    requires first < |priority| && priority[first] == 0 && SomePositive(priority)
    requires forall i :: 0 <= i < |priority| ==> priority[i] >= 0
    ensures IdleStartInv(After(priority, first, 1), first)
  {
    var s := Initial(priority, first);
    assert After(priority, first, 0) == s;
    assert After(priority, first, 1) == Tick(s);
    IdleStartSwitches(priority, first);
    var s1 := Charged(s);
    assert Tick(s) == s1.(ready := FirstMax(s1.ticks));
    hide After, Tick, Rescheduled, FirstMax;
  }

  /** The first interrupt takes the ready process below zero and switches to one with ticks left. */
  lemma IdleStartSwitches(priority: seq<int>, first: nat)
    requires first < |priority| && priority[first] == 0 && SomePositive(priority)
    ensures var ticks := Charged(Initial(priority, first)).ticks;
            ticks == priority[first := -1] && ticks[FirstMax(ticks)] > 0 && FirstMax(ticks) != first
  {
    var ticks := priority[first := -1];
    assert Charged(Initial(priority, first)).ticks == ticks;
    hide FirstMax;
    var j :| 0 <= j < |priority| && priority[j] > 0;
    assert ticks[j] > 0 && ticks[first] == -1;
  }

  lemma IdleStartKept(s: Sched, first: nat)
    requires IdleStartInv(s, first)
    ensures IdleStartInv(Tick(s), first)
  {
    hide FairShare;
    var s2 := Tick(s);
    forall i | 0 <= i < |s.ticks| && i != first
      ensures FairShare(s2, i)
    {
      ChargeKeepsShare(s, i);
      SwitchOrRefill(s, i);
    }
    assert s2.priority[s2.ready] >= s2.priority[s.ready] || s2.epochs == s.epochs;
  }

  ghost function Sum(xs: seq<int>): int {
    if xs == [] then 0 else Sum(xs[..|xs| - 1]) + xs[|xs| - 1]
  }

  lemma {:induction false} SumUpdate(xs: seq<int>, i: nat, v: int)
    requires i < |xs|
    ensures Sum(xs[i := v]) == Sum(xs) - xs[i] + v
  {
    var n := |xs| - 1;
    if i < n {
      SumUpdate(xs[..n], i, v);
      assert xs[i := v][..n] == xs[..n][i := v];
    } else {
      assert xs[i := v][..n] == xs[..n];
    }
  }

  lemma {:induction false} SumNonNegative(xs: seq<int>)
    requires forall i :: 0 <= i < |xs| ==> xs[i] >= 0
    ensures Sum(xs) >= 0
  {
    if xs != [] {
      SumNonNegative(xs[..|xs| - 1]);
    }
  }

  lemma {:induction false} SumDifference(a: seq<int>, b: seq<int>, c: seq<int>)
    requires |a| == |b| == |c| && forall i :: 0 <= i < |a| ==> a[i] == b[i] - c[i]
    ensures Sum(a) == Sum(b) - Sum(c)
  {
    if a != [] {
      var n := |a| - 1;
      SumDifference(a[..n], b[..n], c[..n]);
    }
  }

  lemma {:induction false} SumZero(n: nat)
    ensures Sum(seq(n, _ => 0)) == 0
  {
    if n > 0 {
      assert seq(n, _ => 0)[..n - 1] == seq(n - 1, _ => 0);
      SumZero(n - 1);
    }
  }

  lemma TickChargesOne(s: Sched)
    requires s.Shaped()
    ensures Sum(Tick(s).ran) == Sum(s.ran) + 1
  {
    SumUpdate(s.ran, s.ready, s.ran[s.ready] + 1);
    assert Tick(s).ran == Charged(s).ran == s.ran[s.ready := s.ran[s.ready] + 1];
  }

  /** Every interrupt is charged to one process. */
  lemma {:induction false} TotalTime(priority: seq<int>, first: nat, k: nat)
    requires first < |priority|
    ensures Sum(After(priority, first, k).ran) == k
  {
    if k == 0 {
      SumZero(|priority|);
    } else {
      hide Tick, Sum;
      TotalTime(priority, first, k - 1);
      TickChargesOne(After(priority, first, k - 1));
    }
  }

  lemma {:induction false} IdleStartRun(priority: seq<int>, first: nat, k: nat)
    requires first < |priority| && priority[first] == 0 && SomePositive(priority) && k > 0
    requires forall i :: 0 <= i < |priority| ==> priority[i] >= 0
    ensures IdleStartInv(After(priority, first, k), first)
  {
    if k == 1 {
      IdleStartBegins(priority, first);
    } else {
      IdleStartRun(priority, first, k - 1);
      IdleStartKept(After(priority, first, k - 1), first);
    }
  }

  /** The first refill comes before every priority has been used up once more. */
  lemma RefillComes(priority: seq<int>, first: nat, k: nat)
    requires first < |priority| && priority[first] == 0 && SomePositive(priority)
    requires forall i :: 0 <= i < |priority| ==> priority[i] >= 0
    requires k > 0 && k > Sum(priority)
    ensures After(priority, first, k).epochs > 0
  {
    var s := After(priority, first, k);
    IdleStartRun(priority, first, k);
    TotalTime(priority, first, k);
    if s.epochs == 0 {
      SpentBelowOneRound(s, first);
    }
  }

  lemma SpentBelowOneRound(s: Sched, first: nat)
    requires IdleStartInv(s, first) && s.epochs == 0
    ensures Sum(s.ran) <= Sum(s.priority)
  {
    forall i | 0 <= i < |s.ran|
      ensures s.ran[i] == s.priority[i] - s.ticks[i]
    {
      assert i != first ==> FairShare(s, i);
    }
    SumDifference(s.ran, s.priority, s.ticks);
    SumUpdate(s.ticks, first, 0);
    SumUpdate(s.ticks[first := 0], s.ready, 0);
    SumNonNegative(s.ticks[first := 0][s.ready := 0]);
  }

  /**
   * The law holds in every run exactly when the process that is ready at the start has a positive
   * priority; otherwise that process keeps one tick that its share does not account for.
   */
  lemma ExactShareIff(priority: seq<int>, first: nat)
    requires first < |priority| && SomePositive(priority)
    requires forall i :: 0 <= i < |priority| ==> priority[i] >= 0
    ensures (forall k: nat, i: nat :: i < |priority| ==> FairShare(After(priority, first, k), i)) <==> priority[first] > 0
  {
    if priority[first] > 0 {
      forall k: nat, i: nat | i < |priority|
        ensures FairShare(After(priority, first, k), i)
      {
        ExactShare(priority, first, k, i);
      }
    } else {
      SumNonNegative(priority);
      var k: nat := Sum(priority) + 1;
      RefillComes(priority, first, k);
      IdleStartRun(priority, first, k);
      assert !FairShare(After(priority, first, k), first);
    }
  }
}
