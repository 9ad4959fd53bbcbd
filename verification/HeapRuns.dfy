/** Runs of malloc and free in which the block granted last is freed first. */
module HeapRuns {
  import opened Heap

  // ----- last-in first-out runs -----

  ghost predicate FreeBackLinks(mem: Memory, addrs: seq<nat>) {
    forall i :: 0 <= i < |addrs| && IsFree(mem, addrs[i]) ==> BackLinkOk(mem, addrs, i)
  }

  /** The heaps between the calls of a run. */
  ghost predicate Good(mem: Memory, addrs: seq<nat>, base: nat, end: nat) {
    Tiled(mem, addrs, base, end) && NoAdjacentFree(mem, addrs) && FreeBackLinks(mem, addrs)
  }

  /** The same chain: equal headers at every address of it. */
  ghost predicate Agree(m: Memory, m': Memory, addrs: seq<nat>) {
    forall i :: 0 <= i < |addrs| ==> addrs[i] in m && addrs[i] in m' && m[addrs[i]] == m'[addrs[i]]
  }

  predicate Grantable(mem: Memory, addrs: seq<nat>, k: nat, size: nat) {
    && k < |addrs| && 0 < size < U32 - HEADER_SIZE * 2
    && IsFree(mem, addrs[k]) && Decide(mem[addrs[k]].size, size) != Skip
  }

  lemma GrantKeepsGood(mem: Memory, addrs: seq<nat>, base: nat, end: nat, k: nat, size: nat)
    requires Good(mem, addrs, base, end) && Grantable(mem, addrs, k, size)
    ensures Good(Grant(mem, addrs[k], size), GrantedAddrs(mem, addrs, k, size), base, end)
  {
    hide Decide, Tiled;
    TiledIncreasing(mem, addrs, base, end);
    GrantKeepsTiling(mem, addrs, base, end, k, size);
    GrantKeepsCoalesced(mem, addrs, base, end, k, size);
    var mem', addrs' := Grant(mem, addrs[k], size), GrantedAddrs(mem, addrs, k, size);
    forall i | 0 <= i < |addrs'| && IsFree(mem', addrs'[i])
      ensures BackLinkOk(mem', addrs', i)
    {
      if addrs' == addrs || i < k {
        assert BackLinkOk(mem, addrs, i);
      } else if i > k + 1 {
        NeighboursOk(mem, addrs, base, end, i - 1);
        assert addrs'[i] == addrs[i - 1] && mem'[addrs[i - 1]] == mem[addrs[i - 1]];
        assert IsFree(mem, addrs[i - 1]);
        assert BackLinkOk(mem, addrs, i - 1);
        assert i > k + 2 by {
          assert !IsFree(mem, addrs[i - 2]);
        }
        assert addrs'[i - 1] == addrs[i - 2];
      }
    }
  }

  lemma AgreeKeepsGood(m: Memory, m': Memory, addrs: seq<nat>, base: nat, end: nat)
    requires Good(m, addrs, base, end) && Agree(m, m', addrs)
    ensures Good(m', addrs, base, end)
  {
    forall i | 0 <= i < |addrs|
      ensures BlockOk(m', addrs, i, end)
    {
      assert BlockOk(m, addrs, i, end);
    }
    forall i | 0 <= i < |addrs| && IsFree(m', addrs[i])
      ensures BackLinkOk(m', addrs, i)
    {
      assert BackLinkOk(m, addrs, i);
    }
    forall i | 0 < i < |addrs|
      ensures !(IsFree(m', addrs[i - 1]) && IsFree(m', addrs[i]))
    {
      assert !(IsFree(m, addrs[i - 1]) && IsFree(m, addrs[i]));
    }
  }

  /** The headers after a grant, seen in any memory that agrees with it on the new chain. */
  lemma AfterGrant(mem: Memory, addrs: seq<nat>, base: nat, end: nat, k: nat, size: nat, now: Memory)
    requires Tiled(mem, addrs, base, end) && Grantable(mem, addrs, k, size)
    requires Agree(Grant(mem, addrs[k], size), now, GrantedAddrs(mem, addrs, k, size))
    ensures forall i :: 0 <= i < |addrs| && i != k ==> addrs[i] in now && now[addrs[i]] == mem[addrs[i]]
    ensures var a := addrs[k];
            var rest := a + size + HEADER_SIZE;
            var addrs' := GrantedAddrs(mem, addrs, k, size);
            && a in now && k < |addrs'| && addrs'[k] == a
            && if Decide(mem[a].size, size) == Split then
                 && mem[a].size > size + HEADER_SIZE
                 && now[a] == Header(UsedBlock, size + HEADER_SIZE, rest, mem[a].prev)
                 && rest in now && rest != a && rest > NULL
                 && now[rest] == Header(FreeBlock, mem[a].size - (size + HEADER_SIZE), mem[a].next, a)
                 && k + 1 < |addrs'| && addrs'[k + 1] == rest && addrs' == addrs[..k + 1] + [rest] + addrs[k + 1..]
               else now[a] == mem[a].(kind := UsedBlock) && addrs' == addrs
  {
    hide Decide, Tiled;
    var mem', addrs' := Grant(mem, addrs[k], size), GrantedAddrs(mem, addrs, k, size);
    DecideIsExact(mem[addrs[k]].size, size);
    GrantKeepsTiling(mem, addrs, base, end, k, size);
    assert addrs'[k] == addrs[k];
    forall i | 0 <= i < |addrs| && i != k
      ensures addrs[i] in mem && addrs[i] in now && now[addrs[i]] == mem[addrs[i]]
    {
      NeighboursOk(mem, addrs, base, end, i);
      var i' := if addrs' != addrs && i > k then i + 1 else i;
      assert addrs'[i'] == addrs[i];
    }
    if Decide(mem[addrs[k]].size, size) == Split {
      assert addrs'[k + 1] == addrs[k] + size + HEADER_SIZE;
    }
  }

  /** Without a merge to the left, free changes one header. */
  lemma ReleaseHere(mem: Memory, a: nat)
    requires a > NULL && IsUsed(mem, a) && LinksInside(mem, a) && !MergesPrev(mem, a) && mem[a].next != a
    ensures var h := mem[a];
            Release(mem, a) == mem[a :=
              if h.next != NULL && IsFree(mem, h.next)
              then Header(FreeBlock, h.size + mem[h.next].size, mem[h.next].next, h.prev)
              else Header(FreeBlock, h.size, h.next, h.prev)]
  {
  }

  /** What free will merge with, around a block that was just granted. */
  lemma UndoMerges(mem: Memory, addrs: seq<nat>, base: nat, end: nat, k: nat, size: nat, now: Memory)
    requires Good(mem, addrs, base, end) && Grantable(mem, addrs, k, size)
    requires Agree(Grant(mem, addrs[k], size), now, GrantedAddrs(mem, addrs, k, size))
    ensures var a := addrs[k];
            && a > NULL && a in now && IsUsed(now, a) && !MergesPrev(now, a) && now[a].next != a && LinksInside(now, a)
            && (Decide(mem[a].size, size) == Split <==> now[a].next != NULL && IsFree(now, now[a].next))
  {
    hide Decide, Tiled, Grant, GrantedAddrs;
    AfterGrant(mem, addrs, base, end, k, size, now);
    TiledIncreasing(mem, addrs, base, end);
    NeighboursOk(mem, addrs, base, end, k);
    assert BackLinkOk(mem, addrs, k);
    if k > 0 {
      assert !IsFree(mem, addrs[k - 1]);
      assert addrs[k - 1] < addrs[k] && now[addrs[k - 1]] == mem[addrs[k - 1]];
    }
    if k + 1 < |addrs| {
      assert !IsFree(mem, addrs[k + 1]);
      assert addrs[k] < addrs[k + 1] && now[addrs[k + 1]] == mem[addrs[k + 1]];
    }
  }

  /** Freeing puts back the one header that the grant changed on the old chain. */
  lemma UndoHeader(mem: Memory, addrs: seq<nat>, base: nat, end: nat, k: nat, size: nat, now: Memory)
    requires Good(mem, addrs, base, end) && Grantable(mem, addrs, k, size)
    requires Agree(Grant(mem, addrs[k], size), now, GrantedAddrs(mem, addrs, k, size))
    requires addrs[k] in now && LinksInside(now, addrs[k])
    ensures Release(now, addrs[k]) == now[addrs[k] := mem[addrs[k]]]
    ensures Agree(mem, Release(now, addrs[k]), addrs)
  {
    hide Decide, Tiled, Grant, GrantedAddrs, Release;
    AfterGrant(mem, addrs, base, end, k, size, now);
    UndoMerges(mem, addrs, base, end, k, size, now);
    ReleaseHere(now, addrs[k]);
    TiledIncreasing(mem, addrs, base, end);
    forall i | 0 <= i < |addrs|
      ensures addrs[i] in mem
    {
      NeighboursOk(mem, addrs, base, end, i);
    }
  }

  lemma UndoAddrs(mem: Memory, addrs: seq<nat>, base: nat, end: nat, k: nat, size: nat, now: Memory)
    requires Good(mem, addrs, base, end) && Grantable(mem, addrs, k, size)
    requires Agree(Grant(mem, addrs[k], size), now, GrantedAddrs(mem, addrs, k, size))
    ensures var addrs' := GrantedAddrs(mem, addrs, k, size);
            && k < |addrs'| && addrs'[k] == addrs[k] && FreeOk(now, addrs', k)
            && ReleasedAddrs(now, addrs', k) == addrs
  {
    var addrs' := GrantedAddrs(mem, addrs, k, size);
    hide Decide, Tiled, Grant, GrantedAddrs;
    AfterGrant(mem, addrs, base, end, k, size, now);
    UndoMerges(mem, addrs, base, end, k, size, now);
    if addrs' == addrs && k + 1 < |addrs| {
      NeighboursOk(mem, addrs, base, end, k);
      assert addrs[k + 1] in now;
    }
    assert addrs == addrs[..k + 1] + addrs[k + 1..];
    assert Lo(now, addrs', k) == k;
    assert addrs'[Hi(now, addrs', k) + 1..] == addrs[k + 1..];
    assert addrs'[..k + 1] == addrs[..k + 1];
  }

  /** Freeing a block while the chain is as its malloc left it brings back the chain before that malloc. */
  lemma ReleaseUndoesGrant(mem: Memory, addrs: seq<nat>, base: nat, end: nat, k: nat, size: nat, now: Memory)
    requires Good(mem, addrs, base, end) && Grantable(mem, addrs, k, size)
    requires Agree(Grant(mem, addrs[k], size), now, GrantedAddrs(mem, addrs, k, size))
    ensures var addrs' := GrantedAddrs(mem, addrs, k, size);
            && Good(now, addrs', base, end) && k < |addrs'| && addrs'[k] == addrs[k]
            && FreeOk(now, addrs', k)
            && ReleasedAddrs(now, addrs', k) == addrs
            && Agree(mem, Release(now, addrs[k]), addrs)
  {
    hide Decide, Tiled, Grant, GrantedAddrs, Release, Agree, ReleasedAddrs;
    GrantKeepsGood(mem, addrs, base, end, k, size);
    AgreeKeepsGood(Grant(mem, addrs[k], size), now, GrantedAddrs(mem, addrs, k, size), base, end);
    UndoAddrs(mem, addrs, base, end, k, size, now);
    UndoHeader(mem, addrs, base, end, k, size, now);
  }

  /** The heap just before a malloc that is still to be undone, with the block and size it granted. */
  datatype Frame = Frame(mem: Memory, addrs: seq<nat>, k: nat, size: nat)

  datatype Lifo = Lifo(mem: Memory, addrs: seq<nat>, frames: seq<Frame>)

  datatype Action = Malloc(size: nat) | FreeLast

  ghost predicate LifoStep(s: Lifo, action: Action, s': Lifo) {
    match action
    case Malloc(size) =>
      && size < U32 - HEADER_SIZE * 2
      && var k := FirstFit(s.mem, s.addrs, size, 0);
         if size == 0 || k == |s.addrs| then s' == s
         else s' == Lifo(Grant(s.mem, s.addrs[k], size), GrantedAddrs(s.mem, s.addrs, k, size),
                         s.frames + [Frame(s.mem, s.addrs, k, size)])
    case FreeLast =>
      if s.frames == [] then s' == s
      else
        var top := s.frames[|s.frames| - 1];
        && top.k < |s.addrs| && LinksInside(s.mem, s.addrs[top.k])
        && s' == Lifo(Release(s.mem, s.addrs[top.k]), ReleasedAddrs(s.mem, s.addrs, top.k), s.frames[..|s.frames| - 1])
  }

  ghost predicate LifoNext(s: Lifo, s': Lifo) {
    exists action :: LifoStep(s, action, s')
  }

  /** Heap (mem, addrs) is, as far as its chain goes, the one that the frame's malloc left. */
  ghost predicate Granted(f: Frame, mem: Memory, addrs: seq<nat>) {
    && Grantable(f.mem, f.addrs, f.k, f.size)
    && addrs == GrantedAddrs(f.mem, f.addrs, f.k, f.size)
    && Agree(Grant(f.mem, f.addrs[f.k], f.size), mem, addrs)
  }

  ghost predicate LifoInv(s: Lifo, base: nat, end: nat) {
    && Good(s.mem, s.addrs, base, end)
    && (forall j :: 0 <= j < |s.frames| ==> Good(s.frames[j].mem, s.frames[j].addrs, base, end))
    && (forall j :: 0 < j < |s.frames| ==> Granted(s.frames[j - 1], s.frames[j].mem, s.frames[j].addrs))
    && (s.frames != [] ==> Granted(s.frames[|s.frames| - 1], s.mem, s.addrs))
  }

  lemma MallocKeepsLifo(s: Lifo, size: nat, s': Lifo, base: nat, end: nat)
    requires LifoInv(s, base, end) && LifoStep(s, Malloc(size), s')
    ensures LifoInv(s', base, end)
  {
    hide Good, Grant, GrantedAddrs, Decide;
    var k := FirstFit(s.mem, s.addrs, size, 0);
    if size > 0 && k < |s.addrs| {
      GrantKeepsGood(s.mem, s.addrs, base, end, k, size);
      GrantAgreesWithItself(s.mem, s.addrs, base, end, k, size);
    }
  }

  lemma GrantAgreesWithItself(mem: Memory, addrs: seq<nat>, base: nat, end: nat, k: nat, size: nat)
    requires Good(mem, addrs, base, end) && Grantable(mem, addrs, k, size)
    ensures var mem' := Grant(mem, addrs[k], size); Agree(mem', mem', GrantedAddrs(mem, addrs, k, size))
  {
    hide Grant, GrantedAddrs, Decide;
    GrantKeepsTiling(mem, addrs, base, end, k, size);
  }

  lemma AgreeTransitive(a: Memory, b: Memory, c: Memory, addrs: seq<nat>)
    requires Agree(a, b, addrs) && Agree(b, c, addrs)
    ensures Agree(a, c, addrs)
  {
  }

  /** Every free restores the chain before its malloc. */
  lemma FreeRestores(s: Lifo, s': Lifo, base: nat, end: nat)
    requires LifoInv(s, base, end) && s.frames != [] && LifoStep(s, FreeLast, s')
    ensures LifoInv(s', base, end)
    ensures var top := s.frames[|s.frames| - 1]; s'.addrs == top.addrs && Agree(top.mem, s'.mem, top.addrs)
  {
    hide Good, Grant, GrantedAddrs, Decide, Release, ReleasedAddrs, Agree;
    var top := s.frames[|s.frames| - 1];
    ReleaseUndoesGrant(top.mem, top.addrs, base, end, top.k, top.size, s.mem);
    AgreeKeepsGood(top.mem, s'.mem, top.addrs, base, end);
    if |s.frames| > 1 {
      var below := s.frames[|s.frames| - 2];
      assert Granted(below, top.mem, top.addrs);
      AgreeTransitive(Grant(below.mem, below.addrs[below.k], below.size), top.mem, s'.mem, top.addrs);
    }
  }

  /** The last block that was granted can always be freed. */
  lemma FreeIsPossible(s: Lifo, base: nat, end: nat)
    requires LifoInv(s, base, end)
    ensures exists s' :: LifoStep(s, FreeLast, s')
  {
    if s.frames == [] {
      assert LifoStep(s, FreeLast, s);
    } else {
      hide Good, Grant, GrantedAddrs, Decide, Release, ReleasedAddrs, Agree;
      var n := |s.frames| - 1;
      var top := s.frames[n];
      ReleaseUndoesGrant(top.mem, top.addrs, base, end, top.k, top.size, s.mem);
      var a := s.addrs[top.k];
      assert LifoStep(s, FreeLast, Lifo(Release(s.mem, a), ReleasedAddrs(s.mem, s.addrs, top.k), s.frames[..n]));
    }
  }

  ghost predicate IsLifoRun(run: seq<Lifo>, base: nat, end: nat) {
    && |run| > 0 && run[0].frames == [] && Good(run[0].mem, run[0].addrs, base, end)
    && forall i :: 0 < i < |run| ==> LifoNext(run[i - 1], run[i])
  }

  /** The chain at the bottom of the stack of a run never changes. */
  ghost predicate StartedFrom(s: Lifo, mem: Memory, addrs: seq<nat>) {
    if s.frames == [] then s.addrs == addrs && Agree(mem, s.mem, addrs)
    else s.frames[0].addrs == addrs && Agree(mem, s.frames[0].mem, addrs)
  }

  lemma LifoStepKeeps(s: Lifo, action: Action, s': Lifo, base: nat, end: nat, mem: Memory, addrs: seq<nat>)
    requires LifoInv(s, base, end) && LifoStep(s, action, s') && StartedFrom(s, mem, addrs)
    ensures LifoInv(s', base, end) && StartedFrom(s', mem, addrs)
  {
    hide LifoInv, Agree, Grant, GrantedAddrs, Release, ReleasedAddrs, Decide;
    match action
    case Malloc(size) => MallocKeepsLifo(s, size, s', base, end);
    case FreeLast =>
      if s.frames != [] {
        FreeRestores(s, s', base, end);
        if |s.frames| == 1 {
          AgreeTransitive(mem, s.frames[0].mem, s'.mem, addrs);
        }
      }
  }

  lemma {:induction false} LifoRunKeepsInv(run: seq<Lifo>, base: nat, end: nat, i: nat)
    requires IsLifoRun(run, base, end) && i < |run|
    ensures LifoInv(run[i], base, end) && StartedFrom(run[i], run[0].mem, run[0].addrs)
  {
    if i == 0 {
      hide LifoStep, Granted;
    } else {
      hide LifoInv, StartedFrom, LifoStep, Good;
      LifoRunKeepsInv(run, base, end, i - 1);
      assert LifoNext(run[i - 1], run[i]);
      var action :| LifoStep(run[i - 1], action, run[i]);
      LifoStepKeeps(run[i - 1], action, run[i], base, end, run[0].mem, run[0].addrs);
    }
  }

  /** Over every last-in first-out run, once everything is freed the chain is the one of the start. */
  lemma LifoRunRestores(run: seq<Lifo>, base: nat, end: nat, i: nat)
    requires IsLifoRun(run, base, end) && i < |run|
    ensures Good(run[i].mem, run[i].addrs, base, end)
    ensures run[i].frames == [] ==> run[i].addrs == run[0].addrs && Agree(run[0].mem, run[i].mem, run[0].addrs)
  {
    LifoRunKeepsInv(run, base, end, i);
  }

  // ----- mini_crt_heap_init, and the back links of runs that start there -----

  function InitialHeader(size: nat): Header { Header(FreeBlock, size, NULL, NULL) }

  lemma InitialHeapIsGood(mem: Memory, base: nat)
    requires base > NULL && base in mem && mem[base] == InitialHeader(HEAP_SIZE)
    ensures Good(mem, [base], base, base + HEAP_SIZE) && BackLinks(mem, [base])
  {
  }

  /** In a run from the initial block the used blocks come first, so every split is of the last block. */
  ghost predicate UsedThenFree(mem: Memory, addrs: seq<nat>) {
    forall i :: 0 <= i < |addrs| - 1 ==> IsUsed(mem, addrs[i])
  }

  lemma LastFits(s: Lifo, base: nat, end: nat, size: nat)
    requires Tiled(s.mem, s.addrs, base, end) && UsedThenFree(s.mem, s.addrs)
    ensures FirstFit(s.mem, s.addrs, size, 0) >= |s.addrs| - 1
  {
  }

  lemma MallocKeepsBackLinks(s: Lifo, size: nat, s': Lifo, base: nat, end: nat)
    requires LifoInv(s, base, end) && UsedThenFree(s.mem, s.addrs) && BackLinks(s.mem, s.addrs) && LifoStep(s, Malloc(size), s')
    ensures UsedThenFree(s'.mem, s'.addrs) && BackLinks(s'.mem, s'.addrs)
  {
    hide Grant, Decide;
    var k := FirstFit(s.mem, s.addrs, size, 0);
    LastFits(s, base, end, size);
    if size > 0 && k < |s.addrs| {
      GrantKeepsBackLinksIff(s.mem, s.addrs, base, end, k, size);
      GrantKeepsTiling(s.mem, s.addrs, base, end, k, size);
      forall i | 0 <= i < |s'.addrs| - 1
        ensures IsUsed(s'.mem, s'.addrs[i])
      {
        assert s'.addrs[i] == s.addrs[i];
        assert i < k ==> IsUsed(s.mem, s.addrs[i]);
      }
    }
  }

  lemma AgreeKeepsBackLinks(m: Memory, m': Memory, addrs: seq<nat>)
    requires Agree(m, m', addrs) && BackLinks(m, addrs) && UsedThenFree(m, addrs)
    ensures BackLinks(m', addrs) && UsedThenFree(m', addrs)
  {
    forall i | 0 <= i < |addrs|
      ensures BackLinkOk(m', addrs, i)
    {
      assert BackLinkOk(m, addrs, i);
    }
    forall i | 0 <= i < |addrs| - 1
      ensures IsUsed(m', addrs[i])
    {
      assert IsUsed(m, addrs[i]);
    }
  }

  /** The shape of the current heap and of every heap on the stack. */
  ghost predicate LinkedInv(s: Lifo) {
    && UsedThenFree(s.mem, s.addrs) && BackLinks(s.mem, s.addrs)
    && forall j :: 0 <= j < |s.frames| ==>
         UsedThenFree(s.frames[j].mem, s.frames[j].addrs) && BackLinks(s.frames[j].mem, s.frames[j].addrs)
  }

  lemma StepKeepsLinked(s: Lifo, s': Lifo, base: nat, end: nat)
    requires LifoInv(s, base, end) && LinkedInv(s) && LifoNext(s, s')
    ensures LinkedInv(s')
  {
    hide Grant, Decide, Release, ReleasedAddrs, GrantedAddrs, Good;
    var action :| LifoStep(s, action, s');
    match action {
      case Malloc(size) =>
        MallocKeepsBackLinks(s, size, s', base, end);
      case FreeLast =>
        if s.frames != [] {
          FreeRestores(s, s', base, end);
          var top := s.frames[|s.frames| - 1];
          AgreeKeepsBackLinks(top.mem, s'.mem, top.addrs);
        }
    }
  }

  /** From the initial single block, every last-in first-out run keeps all back links true. */
  lemma {:induction false} LifoRunKeepsBackLinks(run: seq<Lifo>, base: nat, i: nat)
    requires IsLifoRun(run, base, base + HEAP_SIZE) && i < |run|
    requires run[0].addrs == [base] && base in run[0].mem && run[0].mem[base] == InitialHeader(HEAP_SIZE)
    ensures LinkedInv(run[i]) && BackLinks(run[i].mem, run[i].addrs)
    ensures run[i].frames == [] ==> run[i].addrs == [base] && base in run[i].mem && run[i].mem[base] == InitialHeader(HEAP_SIZE)
  {
    hide LifoInv, Good, LifoStep;
    LifoRunRestores(run, base, base + HEAP_SIZE, i);
    if i > 0 {
      LifoRunKeepsBackLinks(run, base, i - 1);
      LifoRunKeepsInv(run, base, base + HEAP_SIZE, i - 1);
      assert LifoNext(run[i - 1], run[i]);
      StepKeepsLinked(run[i - 1], run[i], base, base + HEAP_SIZE);
    }
    if run[i].frames == [] {
      assert Agree(run[0].mem, run[i].mem, [base]);
      assert [base][0] == base;
    }
  }
}
