/** The heap of the small C runtime: block headers in an address space, malloc and free. */
module Heap {

  const HEADER_SIZE: nat := 16
  const U32: nat := 0x1_0000_0000
  const HEAP_SIZE: nat := 1024 * 1024 * 32
  const NULL: nat := 0

  datatype Kind = FreeBlock | UsedBlock | NoBlock

  datatype Header = Header(kind: Kind, size: nat, next: nat, prev: nat)

  /** What is found at each address that was ever used as a header. */
  type Memory = map<nat, Header>

  // ----- the forward chain -----

  function NextAddr(addrs: seq<nat>, i: nat): nat
    requires i < |addrs|
  {
    if i + 1 < |addrs| then addrs[i + 1] else NULL
  }

  function EndAddr(addrs: seq<nat>, i: nat, end: nat): nat
    requires i < |addrs|
  {
    if i + 1 < |addrs| then addrs[i + 1] else end
  }

  /** Block i is well formed, links to its successor and ends where the successor begins. */
  ghost predicate BlockOk(mem: Memory, addrs: seq<nat>, i: nat, end: nat)
    requires i < |addrs|
  {
    && addrs[i] in mem
    && var h := mem[addrs[i]];
       !h.kind.NoBlock? && h.size > HEADER_SIZE && h.next == NextAddr(addrs, i)
       && addrs[i] + h.size == EndAddr(addrs, i, end)
  }

  /** The chain that starts at `base` tiles the arena up to `end`. */
  ghost predicate Tiled(mem: Memory, addrs: seq<nat>, base: nat, end: nat) {
    && addrs != [] && addrs[0] == base > NULL
    && (forall i :: 0 <= i < |addrs| ==> addrs[i] in mem)
    && forall i :: 0 <= i < |addrs| ==> BlockOk(mem, addrs, i, end)
  }

  predicate IsFree(mem: Memory, a: nat) { a in mem && mem[a].kind.FreeBlock? }

  predicate IsUsed(mem: Memory, a: nat) { a in mem && mem[a].kind.UsedBlock? }

  ghost predicate NoAdjacentFree(mem: Memory, addrs: seq<nat>) {
    forall i :: 0 < i < |addrs| ==> !(IsFree(mem, addrs[i - 1]) && IsFree(mem, addrs[i]))
  }

  predicate BackLinkOk(mem: Memory, addrs: seq<nat>, i: nat)
    requires i < |addrs|
  {
    addrs[i] in mem && mem[addrs[i]].prev == if i == 0 then NULL else addrs[i - 1]
  }

  ghost predicate BackLinks(mem: Memory, addrs: seq<nat>) {
    forall i :: 0 <= i < |addrs| ==> BackLinkOk(mem, addrs, i)
  }

  /** Addresses grow along a tiled chain, so no block occurs twice. */
  lemma {:induction false} ChainGrows(mem: Memory, addrs: seq<nat>, base: nat, end: nat, i: nat, j: nat)
    requires Tiled(mem, addrs, base, end) && i < j < |addrs|
    ensures addrs[i] + mem[addrs[i]].size <= addrs[j] && addrs[i] < addrs[j] < end
    decreases j - i
  {
    assert BlockOk(mem, addrs, i, end) && BlockOk(mem, addrs, j, end);
    if i + 1 < j {
      ChainGrows(mem, addrs, base, end, i + 1, j);
    }
    BelowEnd(mem, addrs, base, end, j);
  }

  lemma {:induction false} BelowEnd(mem: Memory, addrs: seq<nat>, base: nat, end: nat, j: nat)
    requires Tiled(mem, addrs, base, end) && j < |addrs|
    ensures addrs[j] + mem[addrs[j]].size <= end
    decreases |addrs| - j
  {
    assert BlockOk(mem, addrs, j, end);
    if j + 1 < |addrs| {
      BelowEnd(mem, addrs, base, end, j + 1);
    }
  }

  ghost predicate Increasing(addrs: seq<nat>) {
    forall i, j :: 0 <= i < j < |addrs| ==> addrs[i] < addrs[j]
  }

  lemma TiledIncreasing(mem: Memory, addrs: seq<nat>, base: nat, end: nat)
    requires Tiled(mem, addrs, base, end)
    ensures Increasing(addrs)
  {
    forall i, j | 0 <= i < j < |addrs|
      ensures addrs[i] < addrs[j]
    {
      ChainGrows(mem, addrs, base, end, i, j);
    }
  }

  // ----- malloc -----

  datatype Fit = Take | Split | Skip

  function Wrap(x: nat): nat { x % U32 }

  /** The two comparisons of malloc on a free block, in 32-bit unsigned arithmetic. */
  function Decide(blockSize: nat, size: nat): Fit {
    if blockSize > Wrap(size + HEADER_SIZE) && blockSize <= Wrap(size + HEADER_SIZE * 2) then Take
    else if blockSize > Wrap(size + HEADER_SIZE * 2) then Split
    else Skip
  }

  /** The same without wrap-around. */
  function DecideExact(blockSize: nat, size: nat): Fit {
    if blockSize > size + HEADER_SIZE * 2 then Split
    else if blockSize > size + HEADER_SIZE then Take
    else Skip
  }

  /**
   * A 32-bit request is granted a block too small for it exactly when the sum with two headers wraps
   * around, whatever block of the heap it is; below that the comparisons mean what they say.
   */
  lemma WrapMakesRoomUp(blockSize: nat, size: nat)
    requires size < U32 && HEADER_SIZE < blockSize <= HEAP_SIZE
    ensures Decide(blockSize, size) != Skip && blockSize < size + HEADER_SIZE <==> size + HEADER_SIZE * 2 >= U32
  {
  }

  lemma DecideIsExact(blockSize: nat, size: nat)
    requires size + HEADER_SIZE * 2 < U32
    ensures Decide(blockSize, size) == DecideExact(blockSize, size)
  {
  }

  /** The first free block that does not have to be skipped, or the length of the chain. */
  function FirstFit(mem: Memory, addrs: seq<nat>, size: nat, from: nat): (k: nat)
    requires from <= |addrs|
    ensures from <= k <= |addrs|
    ensures forall i :: from <= i < k && IsFree(mem, addrs[i]) ==> Decide(mem[addrs[i]].size, size) == Skip
    ensures k < |addrs| ==> IsFree(mem, addrs[k]) && Decide(mem[addrs[k]].size, size) != Skip
    decreases |addrs| - from
  {
    if from == |addrs| then from
    else if IsFree(mem, addrs[from]) && Decide(mem[addrs[from]].size, size) != Skip then from
    else FirstFit(mem, addrs, size, from + 1)
  }

  /** The first free block of the chain, or its length. */
  function FirstFree(mem: Memory, addrs: seq<nat>, from: nat): (k: nat)
    requires from <= |addrs|
    ensures from <= k <= |addrs|
    ensures forall i :: from <= i < k ==> !IsFree(mem, addrs[i])
    ensures k < |addrs| ==> IsFree(mem, addrs[k])
    decreases |addrs| - from
  {
    if from == |addrs| || IsFree(mem, addrs[from]) then from else FirstFree(mem, addrs, from + 1)
  }

  /**
   * The walk of malloc over a whole arena: a request that wraps around is given the first free block,
   * whatever its size, and that block is too small; any other request is only given blocks that hold it.
   */
  lemma WrappedRequestTakesFirstFree(mem: Memory, addrs: seq<nat>, base: nat, end: nat, size: nat)
    requires Tiled(mem, addrs, base, end) && end - base <= HEAP_SIZE && size < U32
    ensures var k := FirstFit(mem, addrs, size, 0);
            && (size + HEADER_SIZE * 2 >= U32 ==> k == FirstFree(mem, addrs, 0))
            && (k < |addrs| ==> addrs[k] in mem && (mem[addrs[k]].size < size + HEADER_SIZE <==> size + HEADER_SIZE * 2 >= U32))
  {
    forall i | 0 <= i < |addrs|
      ensures HEADER_SIZE < mem[addrs[i]].size <= HEAP_SIZE
      ensures IsFree(mem, addrs[i]) && size + HEADER_SIZE * 2 >= U32 ==> Decide(mem[addrs[i]].size, size) != Skip
    {
      assert BlockOk(mem, addrs, i, end);
      if i > 0 {
        ChainGrows(mem, addrs, base, end, 0, i);
      }
      BelowEnd(mem, addrs, base, end, i);
      WrapMakesRoomUp(mem[addrs[i]].size, size);
    }
    var k := FirstFit(mem, addrs, size, 0);
    if k < |addrs| {
      WrapMakesRoomUp(mem[addrs[k]].size, size);
      if size + HEADER_SIZE * 2 < U32 {
        DecideIsExact(mem[addrs[k]].size, size);
      }
    }
  }

  /** The stores of malloc once it has found the free block at `a`. */
  function Grant(mem: Memory, a: nat, size: nat): Memory
    requires IsFree(mem, a) && Decide(mem[a].size, size) != Skip && 0 < size < U32 - HEADER_SIZE * 2
  {
    DecideIsExact(mem[a].size, size);
    var h := mem[a];
    if Decide(h.size, size) == Take then mem[a := h.(kind := UsedBlock)]
    else
      var rest := a + size + HEADER_SIZE;
      mem[rest := Header(FreeBlock, h.size - (size + HEADER_SIZE), h.next, a)]
         [a := Header(UsedBlock, size + HEADER_SIZE, rest, h.prev)]
  }

  function GrantedAddrs(mem: Memory, addrs: seq<nat>, k: nat, size: nat): seq<nat>
    requires k < |addrs| && addrs[k] in mem
  {
    if Decide(mem[addrs[k]].size, size) == Split
    then addrs[..k + 1] + [addrs[k] + size + HEADER_SIZE] + addrs[k + 1..]
    else addrs
  }

  lemma TakeKeepsTiling(mem: Memory, addrs: seq<nat>, base: nat, end: nat, k: nat)
    requires Tiled(mem, addrs, base, end) && k < |addrs|
    ensures Tiled(mem[addrs[k] := mem[addrs[k]].(kind := UsedBlock)], addrs, base, end)
  {
    var mem' := mem[addrs[k] := mem[addrs[k]].(kind := UsedBlock)];
    forall i | 0 <= i < |addrs|
      ensures BlockOk(mem', addrs, i, end)
    {
      assert BlockOk(mem, addrs, i, end);
    }
  }

  /** Cutting block k in two at `rest`. */
  lemma SplitKeepsTiling(mem: Memory, mem': Memory, addrs: seq<nat>, addrs': seq<nat>, base: nat, end: nat, k: nat, rest: nat)
    requires Tiled(mem, addrs, base, end) && k < |addrs| && Increasing(addrs)
    requires addrs[k] + HEADER_SIZE < rest < addrs[k] + mem[addrs[k]].size - HEADER_SIZE
    requires addrs' == addrs[..k + 1] + [rest] + addrs[k + 1..]
    requires mem.Keys <= mem'.Keys && rest in mem'
    requires forall i :: 0 <= i < |addrs| && i != k ==> mem'[addrs[i]] == mem[addrs[i]]
    requires var h := mem[addrs[k]];
             mem'[rest] == Header(FreeBlock, addrs[k] + h.size - rest, h.next, addrs[k])
             && mem'[addrs[k]] == Header(UsedBlock, rest - addrs[k], rest, h.prev)
    ensures Tiled(mem', addrs', base, end)
  {
    assert BlockOk(mem, addrs, k, end);
    forall i | 0 <= i < |addrs'|
      ensures addrs'[i] in mem' && BlockOk(mem', addrs', i, end)
    {
      if i < k {
        assert BlockOk(mem, addrs, i, end);
      } else if i > k + 1 {
        assert addrs'[i] == addrs[i - 1];
        assert BlockOk(mem, addrs, i - 1, end);
      }
    }
  }

  /** The place where a block is cut lies strictly between two headers. */
  lemma CutIsNoHeader(mem: Memory, addrs: seq<nat>, base: nat, end: nat, k: nat, rest: nat)
    requires Tiled(mem, addrs, base, end) && k < |addrs|
    requires addrs[k] < rest < addrs[k] + mem[addrs[k]].size
    ensures rest !in addrs
  {
    forall i | 0 <= i < |addrs|
      ensures addrs[i] != rest
    {
      if i > k {
        ChainGrows(mem, addrs, base, end, k, i);
      } else if i < k {
        ChainGrows(mem, addrs, base, end, i, k);
      }
    }
  }

  /** A grant keeps the tiling, gives out a free block with enough payload and touches no other block. */
  lemma GrantKeepsTiling(mem: Memory, addrs: seq<nat>, base: nat, end: nat, k: nat, size: nat)
    requires Tiled(mem, addrs, base, end) && k < |addrs| && 0 < size < U32 - HEADER_SIZE * 2
    requires IsFree(mem, addrs[k]) && Decide(mem[addrs[k]].size, size) != Skip
    ensures var mem', addrs' := Grant(mem, addrs[k], size), GrantedAddrs(mem, addrs, k, size);
            && Tiled(mem', addrs', base, end)
            && IsUsed(mem', addrs[k]) && size + HEADER_SIZE <= mem'[addrs[k]].size <= size + HEADER_SIZE * 2
            && (addrs' == addrs <==> mem[addrs[k]].size <= size + HEADER_SIZE * 2)
            && (addrs' != addrs ==> mem'[addrs[k]].size == size + HEADER_SIZE)
            && (forall i :: 0 <= i < |addrs| && i != k ==> mem'[addrs[i]] == mem[addrs[i]])
            && (forall a :: a in addrs' && a !in addrs ==> IsFree(mem', a))
  {
    hide Tiled, Wrap, Decide;
    DecideIsExact(mem[addrs[k]].size, size);
    TiledIncreasing(mem, addrs, base, end);
    var mem', addrs' := Grant(mem, addrs[k], size), GrantedAddrs(mem, addrs, k, size);
    if Decide(mem[addrs[k]].size, size) == Split {
      var rest := addrs[k] + size + HEADER_SIZE;
      CutIsNoHeader(mem, addrs, base, end, k, rest);
      SplitKeepsTiling(mem, mem', addrs, addrs', base, end, k, rest);
    } else {
      TakeKeepsTiling(mem, addrs, base, end, k);
    }
  }

  lemma GrantKeepsCoalesced(mem: Memory, addrs: seq<nat>, base: nat, end: nat, k: nat, size: nat)
    requires Tiled(mem, addrs, base, end) && k < |addrs| && 0 < size < U32 - HEADER_SIZE * 2
    requires IsFree(mem, addrs[k]) && Decide(mem[addrs[k]].size, size) != Skip
    requires NoAdjacentFree(mem, addrs)
    ensures NoAdjacentFree(Grant(mem, addrs[k], size), GrantedAddrs(mem, addrs, k, size))
  {
    GrantKeepsTiling(mem, addrs, base, end, k, size);
    var mem', addrs' := Grant(mem, addrs[k], size), GrantedAddrs(mem, addrs, k, size);
    forall i | 0 < i < |addrs'|
      ensures !(IsFree(mem', addrs'[i - 1]) && IsFree(mem', addrs'[i]))
    {
      if addrs' == addrs || i < k {
        assert !(IsFree(mem, addrs[i - 1]) && IsFree(mem, addrs[i]));
      } else if i > k + 1 {
        assert addrs'[i] == addrs[i - 1] && (i > k + 2 ==> addrs'[i - 1] == addrs[i - 2]);
        assert !(IsFree(mem, addrs[i - 2]) && IsFree(mem, addrs[i - 1]));
      }
    }
  }

  /** A split does not tell the old successor about its new predecessor: the back links survive only without one. */
  lemma GrantKeepsBackLinksIff(mem: Memory, addrs: seq<nat>, base: nat, end: nat, k: nat, size: nat)
    requires Tiled(mem, addrs, base, end) && BackLinks(mem, addrs) && k < |addrs| && 0 < size < U32 - HEADER_SIZE * 2
    requires IsFree(mem, addrs[k]) && Decide(mem[addrs[k]].size, size) != Skip
    ensures BackLinks(Grant(mem, addrs[k], size), GrantedAddrs(mem, addrs, k, size))
            <==> Decide(mem[addrs[k]].size, size) == Take || k == |addrs| - 1
  {
    GrantKeepsTiling(mem, addrs, base, end, k, size);
    TiledIncreasing(mem, addrs, base, end);
    var mem', addrs' := Grant(mem, addrs[k], size), GrantedAddrs(mem, addrs, k, size);
    assert forall i :: 0 <= i < |addrs| ==> BackLinkOk(mem, addrs, i);
    if Decide(mem[addrs[k]].size, size) == Split {
      if k < |addrs| - 1 {
        assert addrs'[k + 2] == addrs[k + 1] && mem'[addrs[k + 1]] == mem[addrs[k + 1]];
        assert BackLinkOk(mem, addrs, k + 1);
        assert addrs'[k + 1] == addrs[k] + size + HEADER_SIZE;
        assert !BackLinkOk(mem', addrs', k + 2);
      } else {
        forall i | 0 <= i < |addrs'|
          ensures BackLinkOk(mem', addrs', i)
        {
          assert i < |addrs| ==> BackLinkOk(mem, addrs, i);
        }
      }
    } else {
      forall i | 0 <= i < |addrs'|
        ensures BackLinkOk(mem', addrs', i)
      {
        assert BackLinkOk(mem, addrs, i);
      }
    }
  }

  // ----- free -----

  /** The first half of free: the block joins its predecessor if the back link names a free block. */
  datatype Merged = Merged(mem: Memory, header: nat)

  function MergeWithPrev(mem: Memory, a: nat): Merged
    requires a in mem && (mem[a].prev != NULL ==> mem[a].prev in mem) && (mem[a].next != NULL ==> mem[a].next in mem)
  {
    var p := mem[a].prev;
    if p != NULL && mem[p].kind.FreeBlock? then
      var m1 := mem[p := mem[p].(next := mem[a].next)];
      var n := m1[a].next;
      var m2 := if n != NULL && n in m1 then m1[n := m1[n].(prev := m1[a].prev)] else m1;
      Merged(m2[p := m2[p].(size := m2[p].size + m2[a].size)], p)
    else Merged(mem, a)
  }

  /** The second half: the block swallows its successor if that is free. */
  function MergeWithNext(mem: Memory, a: nat): Memory
    requires a in mem && (mem[a].next != NULL ==> mem[a].next in mem)
  {
    var n := mem[a].next;
    if n != NULL && mem[n].kind.FreeBlock?
    then mem[a := mem[a].(size := mem[a].size + mem[n].size, next := mem[n].next)]
    else mem
  }

  predicate LinksInside(mem: Memory, a: nat) {
    && a in mem
    && (mem[a].prev != NULL ==> mem[a].prev in mem)
    && (mem[a].next != NULL ==> mem[a].next in mem)
  }

  /** free on the header at `a`; freeing a block that is not in use does nothing. */
  function Release(mem: Memory, a: nat): Memory
    requires LinksInside(mem, a)
  {
    if !mem[a].kind.UsedBlock? then mem
    else
      var m := mem[a := mem[a].(kind := FreeBlock)];
      var merged := MergeWithPrev(m, a);
      MergeWithNext(merged.mem, merged.header)
  }

  // ----- free as a whole -----

  /** The memory once the block is marked free, before any merging. */
  function Marked(mem: Memory, a: nat): Memory
    requires a in mem
  {
    mem[a := mem[a].(kind := FreeBlock)]
  }

  predicate MergesPrev(mem: Memory, a: nat)
    requires a in mem
  {
    mem[a].prev != NULL && IsFree(Marked(mem, a), mem[a].prev)
  }

  predicate MergesNext(mem: Memory, addrs: seq<nat>, i: nat)
    requires i < |addrs|
  {
    i + 1 < |addrs| && IsFree(mem, addrs[i + 1])
  }

  /** The first and the last of the old blocks that become one. */
  function Lo(mem: Memory, addrs: seq<nat>, i: nat): nat
    requires i < |addrs| && addrs[i] in mem
  {
    if MergesPrev(mem, addrs[i]) && i > 0 then i - 1 else i
  }

  function Hi(mem: Memory, addrs: seq<nat>, i: nat): nat
    requires i < |addrs|
  {
    if MergesNext(mem, addrs, i) then i + 1 else i
  }

  function ReleasedAddrs(mem: Memory, addrs: seq<nat>, i: nat): seq<nat>
    requires i < |addrs| && addrs[i] in mem
  {
    addrs[..Lo(mem, addrs, i) + 1] + addrs[Hi(mem, addrs, i) + 1..]
  }

  /** If the back link of the freed block names a free block, that block is the predecessor. */
  ghost predicate FreeOk(mem: Memory, addrs: seq<nat>, i: nat) {
    && i < |addrs| && IsUsed(mem, addrs[i]) && LinksInside(mem, addrs[i])
    && (MergesPrev(mem, addrs[i]) ==> i > 0 && mem[addrs[i]].prev == addrs[i - 1])
  }

  /** The back link names a free header that is no longer part of the chain. */
  ghost predicate MergesDead(mem: Memory, addrs: seq<nat>, i: nat)
    requires i < |addrs| && addrs[i] in mem
  {
    MergesPrev(mem, addrs[i]) && mem[addrs[i]].prev !in addrs
  }

  /** A back link that names a free header names the predecessor, or a header outside the chain. */
  ghost predicate SafeLink(mem: Memory, addrs: seq<nat>, i: nat)
    requires i < |addrs| && addrs[i] in mem
  {
    MergesPrev(mem, addrs[i]) ==> mem[addrs[i]].prev !in addrs || (i > 0 && mem[addrs[i]].prev == addrs[i - 1])
  }

  ghost function ReleasedChain(mem: Memory, addrs: seq<nat>, i: nat): seq<nat>
    requires i < |addrs| && addrs[i] in mem
  {
    if MergesDead(mem, addrs, i) then addrs else ReleasedAddrs(mem, addrs, i)
  }

  predicate SameBlock(mem: Memory, mem': Memory, a: nat) {
    a in mem && a in mem' && mem'[a].kind == mem[a].kind && mem'[a].size == mem[a].size && mem'[a].next == mem[a].next
  }

  /** Blocks lo..hi have become one free block; elsewhere at most back links differ. */
  ghost predicate Collapsed(mem: Memory, mem': Memory, addrs: seq<nat>, lo: nat, hi: nat, end: nat) {
    && lo <= hi < |addrs|
    && (forall j :: 0 <= j < |addrs| && !(lo <= j <= hi) ==> SameBlock(mem, mem', addrs[j]))
    && IsFree(mem', addrs[lo])
    && mem'[addrs[lo]].next == NextAddr(addrs, hi)
    && addrs[lo] + mem'[addrs[lo]].size == EndAddr(addrs, hi, end)
  }

  lemma CollapseKeepsTiling(mem: Memory, mem': Memory, addrs: seq<nat>, base: nat, end: nat, lo: nat, hi: nat)
    requires Tiled(mem, addrs, base, end) && Collapsed(mem, mem', addrs, lo, hi, end)
    ensures Tiled(mem', addrs[..lo + 1] + addrs[hi + 1..], base, end)
  {
    var addrs' := addrs[..lo + 1] + addrs[hi + 1..];
    forall j | 0 <= j < |addrs'|
      ensures addrs'[j] in mem' && BlockOk(mem', addrs', j, end)
    {
      if j < lo {
        assert BlockOk(mem, addrs, j, end) && SameBlock(mem, mem', addrs[j]);
      } else if j == lo {
        assert BlockOk(mem, addrs, lo, end);
        if lo < hi {
          ChainGrows(mem, addrs, base, end, lo, hi);
        }
        BelowEnd(mem, addrs, base, end, hi);
        assert BlockOk(mem, addrs, hi, end);
      } else {
        var k := j + hi - lo;
        assert addrs'[j] == addrs[k] && BlockOk(mem, addrs, k, end) && SameBlock(mem, mem', addrs[k]);
      }
    }
  }

  /** What the two merges of free do, in one step: away from the merged blocks. */
  lemma ReleaseElsewhere(mem: Memory, addrs: seq<nat>, base: nat, end: nat, i: nat, j: nat)
    requires Tiled(mem, addrs, base, end) && FreeOk(mem, addrs, i)
    requires j < |addrs| && !(Lo(mem, addrs, i) <= j <= Hi(mem, addrs, i))
    ensures SameBlock(mem, Release(mem, addrs[i]), addrs[j])
    ensures Release(mem, addrs[i])[addrs[j]].prev
            == if j == i + 1 && MergesPrev(mem, addrs[i]) then addrs[i - 1] else mem[addrs[j]].prev
  {
    AddressesDiffer(mem, addrs, base, end, i, j);
    hide Tiled, Release, Lo, Hi;
    ReleaseLocally(mem, addrs[i]);
  }

  /** Which of the addresses that free uses are the ones of block i and of another block j. */
  lemma AddressesDiffer(mem: Memory, addrs: seq<nat>, base: nat, end: nat, i: nat, j: nat)
    requires Tiled(mem, addrs, base, end) && FreeOk(mem, addrs, i)
    requires j < |addrs| && !(Lo(mem, addrs, i) <= j <= Hi(mem, addrs, i))
    ensures addrs[i] in mem && addrs[i] > NULL && mem[addrs[i]].next != addrs[i]
    ensures MergesPrev(mem, addrs[i]) ==>
      i > 0 && mem[addrs[i]].prev == addrs[i - 1] && mem[addrs[i]].prev != addrs[i] && mem[addrs[i]].prev != mem[addrs[i]].next
    ensures addrs[j] in mem && addrs[j] != addrs[i] && (MergesPrev(mem, addrs[i]) ==> addrs[j] != mem[addrs[i]].prev)
    ensures addrs[j] == mem[addrs[i]].next <==> j == i + 1
    ensures j == i + 1 ==> mem[addrs[i]].next != NULL && !IsFree(mem, mem[addrs[i]].next)
  {
    TiledIncreasing(mem, addrs, base, end);
    hide Tiled;
    NeighboursOk(mem, addrs, base, end, i);
    NeighboursOk(mem, addrs, base, end, j);
  }

  /** ... and at the block that they have become. */
  lemma ReleaseAtFirst(mem: Memory, addrs: seq<nat>, base: nat, end: nat, i: nat)
    requires Tiled(mem, addrs, base, end) && FreeOk(mem, addrs, i)
    ensures var mem', lo, hi := Release(mem, addrs[i]), Lo(mem, addrs, i), Hi(mem, addrs, i);
            && IsFree(mem', addrs[lo])
            && mem'[addrs[lo]].next == NextAddr(addrs, hi)
            && addrs[lo] + mem'[addrs[lo]].size == EndAddr(addrs, hi, end)
            && addrs[lo] in mem && mem'[addrs[lo]].prev == mem[addrs[lo]].prev
  {
    TiledIncreasing(mem, addrs, base, end);
    hide Tiled, Release;
    NeighboursOk(mem, addrs, base, end, i);
    ReleaseLocally(mem, addrs[i]);
  }

  lemma ReleaseCollapses(mem: Memory, addrs: seq<nat>, base: nat, end: nat, i: nat)
    requires Tiled(mem, addrs, base, end) && FreeOk(mem, addrs, i)
    ensures Collapsed(mem, Release(mem, addrs[i]), addrs, Lo(mem, addrs, i), Hi(mem, addrs, i), end)
    ensures addrs[Lo(mem, addrs, i)] in mem
    ensures Release(mem, addrs[i])[addrs[Lo(mem, addrs, i)]].prev == mem[addrs[Lo(mem, addrs, i)]].prev
    ensures forall j :: 0 <= j < |addrs| && !(Lo(mem, addrs, i) <= j <= Hi(mem, addrs, i)) ==>
      Release(mem, addrs[i])[addrs[j]].prev
        == if j == i + 1 && MergesPrev(mem, addrs[i]) then addrs[i - 1] else mem[addrs[j]].prev
  {
    hide Tiled, Release;
    ReleaseAtFirst(mem, addrs, base, end, i);
    forall j | 0 <= j < |addrs| && !(Lo(mem, addrs, i) <= j <= Hi(mem, addrs, i))
      ensures SameBlock(mem, Release(mem, addrs[i]), addrs[j])
      ensures Release(mem, addrs[i])[addrs[j]].prev
              == if j == i + 1 && MergesPrev(mem, addrs[i]) then addrs[i - 1] else mem[addrs[j]].prev
    {
      ReleaseElsewhere(mem, addrs, base, end, i, j);
    }
  }

  /** free touches at most the freed header and the two that it links to. */
  lemma ReleaseLocally(mem: Memory, a: nat)
    requires a > NULL && IsUsed(mem, a) && LinksInside(mem, a)
    requires var h := mem[a]; h.next != a && (MergesPrev(mem, a) ==> h.prev != a && h.prev != h.next)
    ensures var mem', h := Release(mem, a), mem[a];
            var first := if MergesPrev(mem, a) then h.prev else a;
            var swallows := h.next != NULL && IsFree(mem, h.next);
            && (forall x :: x in mem && x != a && x != first && x != h.next ==> x in mem' && mem'[x] == mem[x])
            && first in mem' && (first != a ==> a in mem' && mem'[a] == mem[a].(kind := FreeBlock))
            && mem'[first] == Header(
                 FreeBlock,
                 h.size + (if first != a then mem[first].size else 0) + (if swallows then mem[h.next].size else 0),
                 if swallows then mem[h.next].next else h.next,
                 mem[first].prev)
            && (h.next != NULL ==>
                  h.next in mem' && mem'[h.next] == mem[h.next].(prev := if first != a then first else mem[h.next].prev))
  {
  }

  lemma NeighboursOk(mem: Memory, addrs: seq<nat>, base: nat, end: nat, i: nat)
    requires Tiled(mem, addrs, base, end) && i < |addrs|
    ensures BlockOk(mem, addrs, i, end) && addrs[i] > NULL
    ensures i > 0 ==> BlockOk(mem, addrs, i - 1, end) && addrs[i - 1] > NULL
    ensures i + 1 < |addrs| ==> BlockOk(mem, addrs, i + 1, end) && addrs[i + 1] > NULL
    ensures i + 2 < |addrs| ==> BlockOk(mem, addrs, i + 2, end) && addrs[i + 2] > NULL
  {
    TiledIncreasing(mem, addrs, base, end);
  }

  /**
   * If the freed block's back link is the predecessor whenever it names a free block, the arena stays
   * tiled, the block has become free space, and every other used block is untouched.
   */
  lemma ReleaseKeepsTiling(mem: Memory, addrs: seq<nat>, base: nat, end: nat, i: nat)
    requires Tiled(mem, addrs, base, end) && FreeOk(mem, addrs, i)
    ensures var mem', addrs' := Release(mem, addrs[i]), ReleasedAddrs(mem, addrs, i);
            && Tiled(mem', addrs', base, end)
            && (forall j :: 0 <= j < |addrs| && j != i && IsUsed(mem, addrs[j]) ==>
                  addrs[j] in addrs' && IsUsed(mem', addrs[j]) && mem'[addrs[j]].size == mem[addrs[j]].size)
            && IsFree(mem', addrs[Lo(mem, addrs, i)])
  {
    hide Release;
    var mem', addrs' := Release(mem, addrs[i]), ReleasedAddrs(mem, addrs, i);
    var lo, hi := Lo(mem, addrs, i), Hi(mem, addrs, i);
    ReleaseCollapses(mem, addrs, base, end, i);
    CollapseKeepsTiling(mem, mem', addrs, base, end, lo, hi);
    assert lo < i ==> IsFree(mem, addrs[lo]) by {
      TiledIncreasing(mem, addrs, base, end);
    }
    forall j | 0 <= j < |addrs| && j != i && IsUsed(mem, addrs[j])
      ensures addrs[j] in addrs' && SameBlock(mem, mem', addrs[j])
    {
      if j < lo {
        assert addrs'[j] == addrs[j];
      } else {
        assert j > hi && addrs'[j - hi + lo] == addrs[j];
      }
    }
  }

  lemma BackLinkMakesFreeOk(mem: Memory, addrs: seq<nat>, base: nat, end: nat, i: nat)
    requires Tiled(mem, addrs, base, end) && i < |addrs| && IsUsed(mem, addrs[i]) && BackLinkOk(mem, addrs, i)
    ensures FreeOk(mem, addrs, i)
    ensures MergesPrev(mem, addrs[i]) <==> i > 0 && IsFree(mem, addrs[i - 1])
  {
    TiledIncreasing(mem, addrs, base, end);
    NeighboursOk(mem, addrs, base, end, i);
  }

  /** A merge into a header outside the chain changes no block of it, beyond marking the freed one. */
  lemma DeadMergeKeepsTiling(mem: Memory, addrs: seq<nat>, base: nat, end: nat, i: nat)
    requires Tiled(mem, addrs, base, end) && i < |addrs| && IsUsed(mem, addrs[i]) && LinksInside(mem, addrs[i])
    requires MergesDead(mem, addrs, i)
    ensures var mem' := Release(mem, addrs[i]);
            && Tiled(mem', addrs, base, end) && IsFree(mem', addrs[i])
            && forall j :: 0 <= j < |addrs| && j != i ==> SameBlock(mem, mem', addrs[j])
  {
    hide Release, Tiled;
    var mem' := Release(mem, addrs[i]);
    forall j | 0 <= j < |addrs|
      ensures if j == i then addrs[i] in mem' && mem'[addrs[i]] == Marked(mem, addrs[i])[addrs[i]] else SameBlock(mem, mem', addrs[j])
    {
      DeadMergeTouches(mem, addrs, base, end, i, j);
    }
    MarkingKeepsTiling(mem, mem', addrs, base, end, i);
  }

  lemma DeadMergeTouches(mem: Memory, addrs: seq<nat>, base: nat, end: nat, i: nat, j: nat)
    requires Tiled(mem, addrs, base, end) && i < |addrs| && IsUsed(mem, addrs[i]) && LinksInside(mem, addrs[i])
    requires MergesDead(mem, addrs, i) && j < |addrs|
    ensures var mem' := Release(mem, addrs[i]);
            if j == i then addrs[i] in mem' && mem'[addrs[i]] == Marked(mem, addrs[i])[addrs[i]]
            else SameBlock(mem, mem', addrs[j])
  {
    TiledIncreasing(mem, addrs, base, end);
    hide Release, Tiled;
    NeighboursOk(mem, addrs, base, end, i);
    NeighboursOk(mem, addrs, base, end, j);
    ReleaseLocally(mem, addrs[i]);
    assert addrs[j] != mem[addrs[i]].prev;
  }

  lemma MarkingKeepsTiling(mem: Memory, mem': Memory, addrs: seq<nat>, base: nat, end: nat, i: nat)
    requires Tiled(mem, addrs, base, end) && i < |addrs| && addrs[i] in mem'
    requires addrs[i] in mem && mem'[addrs[i]] == mem[addrs[i]].(kind := FreeBlock)
    requires forall j :: 0 <= j < |addrs| && j != i ==> SameBlock(mem, mem', addrs[j])
    ensures Tiled(mem', addrs, base, end)
  {
    forall j | 0 <= j < |addrs|
      ensures addrs[j] in mem' && BlockOk(mem', addrs, j, end)
    {
      assert BlockOk(mem, addrs, j, end);
      assert j != i ==> SameBlock(mem, mem', addrs[j]);
    }
  }

  /** free keeps the arena tiled, and every other used block, whenever the back link is safe. */
  lemma FreeKeepsTiling(mem: Memory, addrs: seq<nat>, base: nat, end: nat, i: nat)
    requires Tiled(mem, addrs, base, end) && i < |addrs| && IsUsed(mem, addrs[i]) && LinksInside(mem, addrs[i])
    requires SafeLink(mem, addrs, i)
    ensures var mem', addrs' := Release(mem, addrs[i]), ReleasedChain(mem, addrs, i);
            && Tiled(mem', addrs', base, end)
            && (forall j :: 0 <= j < |addrs| && j != i && IsUsed(mem, addrs[j]) ==>
                  addrs[j] in addrs' && IsUsed(mem', addrs[j]) && mem'[addrs[j]].size == mem[addrs[j]].size)
  {
    hide Release, Tiled, ReleasedAddrs;
    if MergesDead(mem, addrs, i) {
      DeadMergeKeepsTiling(mem, addrs, base, end, i);
      assert forall j :: 0 <= j < |addrs| ==> addrs[j] in addrs;
    } else {
      ReleaseKeepsTiling(mem, addrs, base, end, i);
    }
  }

  /** If free merges with its free neighbours, it leaves no two neighbouring free blocks if there were none. */
  lemma MergingCoalesces(mem: Memory, addrs: seq<nat>, base: nat, end: nat, i: nat)
    requires Tiled(mem, addrs, base, end) && FreeOk(mem, addrs, i) && NoAdjacentFree(mem, addrs)
    requires i > 0 && IsFree(mem, addrs[i - 1]) ==> MergesPrev(mem, addrs[i])
    ensures NoAdjacentFree(Release(mem, addrs[i]), ReleasedAddrs(mem, addrs, i))
  {
    TiledIncreasing(mem, addrs, base, end);
    hide Release, Tiled;
    ReleaseCollapses(mem, addrs, base, end, i);
    var mem', addrs' := Release(mem, addrs[i]), ReleasedAddrs(mem, addrs, i);
    var lo, hi := Lo(mem, addrs, i), Hi(mem, addrs, i);
    forall j | 0 < j < |addrs'|
      ensures !(IsFree(mem', addrs'[j - 1]) && IsFree(mem', addrs'[j]))
    {
      if j <= lo {
        assert !(IsFree(mem, addrs[j - 1]) && IsFree(mem, addrs[j]));
        assert SameBlock(mem, mem', addrs[j - 1]);
        assert j < lo ==> SameBlock(mem, mem', addrs[j]);
      } else {
        var k := j + hi - lo;
        assert addrs'[j] == addrs[k] && SameBlock(mem, mem', addrs[k]);
        assert !(IsFree(mem, addrs[k - 1]) && IsFree(mem, addrs[k]));
        assert j > lo + 1 ==> addrs'[j - 1] == addrs[k - 1] && SameBlock(mem, mem', addrs[k - 1]);
      }
    }
  }

  /** With a true back link, free leaves no two neighbouring free blocks if there were none. */
  lemma ReleaseCoalesces(mem: Memory, addrs: seq<nat>, base: nat, end: nat, i: nat)
    requires Tiled(mem, addrs, base, end) && i < |addrs| && IsUsed(mem, addrs[i]) && BackLinkOk(mem, addrs, i)
    requires NoAdjacentFree(mem, addrs)
    ensures FreeOk(mem, addrs, i)
    ensures NoAdjacentFree(Release(mem, addrs[i]), ReleasedAddrs(mem, addrs, i))
  {
    hide Release, Tiled, ReleasedAddrs, NoAdjacentFree;
    BackLinkMakesFreeOk(mem, addrs, base, end, i);
    MergingCoalesces(mem, addrs, base, end, i);
  }

  /**
   * A safe free leaves no two neighbouring free blocks exactly when its back link names the predecessor if
   * that is free, and names nothing dead if the successor is free.
   */
  lemma FreeCoalescesIff(mem: Memory, addrs: seq<nat>, base: nat, end: nat, i: nat)
    requires Tiled(mem, addrs, base, end) && i < |addrs| && IsUsed(mem, addrs[i]) && LinksInside(mem, addrs[i])
    requires SafeLink(mem, addrs, i) && NoAdjacentFree(mem, addrs)
    ensures NoAdjacentFree(Release(mem, addrs[i]), ReleasedChain(mem, addrs, i))
            <==> (i > 0 && IsFree(mem, addrs[i - 1]) ==> mem[addrs[i]].prev == addrs[i - 1])
                 && (MergesNext(mem, addrs, i) ==> !MergesDead(mem, addrs, i))
  {
    hide Release, ReleasedAddrs;
    TiledIncreasing(mem, addrs, base, end);
    NeighboursOk(mem, addrs, base, end, i);
    hide Tiled;
    var mem' := Release(mem, addrs[i]);
    if MergesDead(mem, addrs, i) {
      DeadMergeKeepsTiling(mem, addrs, base, end, i);
      DeadMergeCoalesces(mem, mem', addrs, i);
    } else if i > 0 && IsFree(mem, addrs[i - 1]) && !MergesPrev(mem, addrs[i]) {
      UnmergedStaysAdjacent(mem, addrs, base, end, i);
    } else {
      MergingCoalesces(mem, addrs, base, end, i);
    }
  }

  lemma DeadMergeCoalesces(mem: Memory, mem': Memory, addrs: seq<nat>, i: nat)
    requires i < |addrs| && NoAdjacentFree(mem, addrs) && IsFree(mem', addrs[i])
    requires forall j :: 0 <= j < |addrs| && j != i ==> SameBlock(mem, mem', addrs[j])
    ensures NoAdjacentFree(mem', addrs) <==> !(i > 0 && IsFree(mem, addrs[i - 1])) && !MergesNext(mem, addrs, i)
  {
    if i > 0 && IsFree(mem, addrs[i - 1]) {
      assert SameBlock(mem, mem', addrs[i - 1]);
    } else if MergesNext(mem, addrs, i) {
      assert SameBlock(mem, mem', addrs[i + 1]) && IsFree(mem', addrs[i + 1 - 1]);
    } else {
      forall j | 0 < j < |addrs|
        ensures !(IsFree(mem', addrs[j - 1]) && IsFree(mem', addrs[j]))
      {
        assert !(IsFree(mem, addrs[j - 1]) && IsFree(mem, addrs[j]));
        assert j != i ==> SameBlock(mem, mem', addrs[j]);
        assert j - 1 != i ==> SameBlock(mem, mem', addrs[j - 1]);
      }
    }
  }

  lemma UnmergedStaysAdjacent(mem: Memory, addrs: seq<nat>, base: nat, end: nat, i: nat)
    requires Tiled(mem, addrs, base, end) && FreeOk(mem, addrs, i)
    requires i > 0 && IsFree(mem, addrs[i - 1]) && !MergesPrev(mem, addrs[i])
    ensures !NoAdjacentFree(Release(mem, addrs[i]), ReleasedAddrs(mem, addrs, i))
  {
    hide Release, Tiled;
    ReleaseCollapses(mem, addrs, base, end, i);
    var mem', addrs' := Release(mem, addrs[i]), ReleasedAddrs(mem, addrs, i);
    assert addrs'[i - 1] == addrs[i - 1] && addrs'[i] == addrs[i];
    assert SameBlock(mem, mem', addrs[i - 1]);
  }

  /** Merging with the next block forgets its successor's back link: all links survive only without one. */
  lemma ReleaseKeepsBackLinksIff(mem: Memory, addrs: seq<nat>, base: nat, end: nat, i: nat)
    requires Tiled(mem, addrs, base, end) && BackLinks(mem, addrs) && i < |addrs| && IsUsed(mem, addrs[i])
    ensures FreeOk(mem, addrs, i)
    ensures BackLinks(Release(mem, addrs[i]), ReleasedAddrs(mem, addrs, i))
            <==> !MergesNext(mem, addrs, i) || i + 2 == |addrs|
  {
    hide Release, Tiled, ReleasedAddrs;
    BackLinkMakesFreeOk(mem, addrs, base, end, i);
    if MergesNext(mem, addrs, i) && i + 2 < |addrs| {
      SwallowLosesBackLink(mem, addrs, base, end, i);
    } else {
      forall j | 0 <= j < |ReleasedAddrs(mem, addrs, i)|
        ensures BackLinkOk(Release(mem, addrs[i]), ReleasedAddrs(mem, addrs, i), j)
      {
        BackLinkSurvives(mem, addrs, base, end, i, j);
      }
    }
  }

  lemma SwallowLosesBackLink(mem: Memory, addrs: seq<nat>, base: nat, end: nat, i: nat)
    requires Tiled(mem, addrs, base, end) && BackLinks(mem, addrs) && FreeOk(mem, addrs, i)
    requires MergesNext(mem, addrs, i) && i + 2 < |addrs|
    ensures !BackLinks(Release(mem, addrs[i]), ReleasedAddrs(mem, addrs, i))
  {
    TiledIncreasing(mem, addrs, base, end);
    hide Release, Tiled;
    ReleaseCollapses(mem, addrs, base, end, i);
    var mem', addrs' := Release(mem, addrs[i]), ReleasedAddrs(mem, addrs, i);
    var lo := Lo(mem, addrs, i);
    assert addrs'[lo + 1] == addrs[i + 2] && addrs'[lo] == addrs[lo];
    assert BackLinkOk(mem, addrs, i + 2) && addrs[lo] < addrs[i + 1];
    assert !BackLinkOk(mem', addrs', lo + 1);
  }

  lemma BackLinkSurvives(mem: Memory, addrs: seq<nat>, base: nat, end: nat, i: nat, j: nat)
    requires Tiled(mem, addrs, base, end) && BackLinks(mem, addrs) && FreeOk(mem, addrs, i)
    requires !MergesNext(mem, addrs, i) || i + 2 == |addrs|
    requires j < |ReleasedAddrs(mem, addrs, i)|
    ensures BackLinkOk(Release(mem, addrs[i]), ReleasedAddrs(mem, addrs, i), j)
  {
    hide Release, Tiled;
    ReleaseCollapses(mem, addrs, base, end, i);
    var mem', addrs' := Release(mem, addrs[i]), ReleasedAddrs(mem, addrs, i);
    var lo, hi := Lo(mem, addrs, i), Hi(mem, addrs, i);
    if j > lo {
      var k := j + hi - lo;
      assert addrs'[j] == addrs[k] && (j > lo + 1 ==> addrs'[j - 1] == addrs[k - 1]) && addrs'[lo] == addrs[lo];
      assert BackLinkOk(mem, addrs, k) && hi == i && SameBlock(mem, mem', addrs[k]);
    } else {
      assert addrs'[j] == addrs[j] && (j > 0 ==> addrs'[j - 1] == addrs[j - 1]);
      assert BackLinkOk(mem, addrs, j);
      assert j < lo ==> SameBlock(mem, mem', addrs[j]);
    }
  }
}
