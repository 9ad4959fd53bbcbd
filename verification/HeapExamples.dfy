/** Runs from the initial block that end with an arena that nothing tiles. */
module HeapExamples {
  import opened Common
  import opened Heap
  import opened HeapBytes
  import opened HeapCalls
  import opened HeapAnyOrder

  const BASE: nat := 1000
  const END: nat := BASE + HEAP_SIZE

  // ----- single calls on a chain of known headers -----

  ghost predicate Holds(s: HeapState, mem: Memory, addrs: seq<nat>) {
    s.addrs == addrs && Headers(s.b, addrs) == mem && TiledBytes(s.b, addrs, BASE, END)
  }

  /** The first free block of the chain, and it fits. */
  predicate FitsFirst(mem: Memory, addrs: seq<nat>, size: nat, k: nat) {
    && k < |addrs| && IsFree(mem, addrs[k]) && Decide(mem[addrs[k]].size, size) != Skip
    && forall i :: 0 <= i < k ==> !IsFree(mem, addrs[i])
  }

  lemma {:induction false} FitFrom(mem: Memory, addrs: seq<nat>, size: nat, from: nat, k: nat)
    requires from <= k && FitsFirst(mem, addrs, size, k)
    ensures FirstFit(mem, addrs, size, from) == k
    decreases k - from
  {
    if from < k {
      FitFrom(mem, addrs, size, from + 1, k);
    }
  }

  lemma AllocStep(s: HeapState, mem: Memory, addrs: seq<nat>, size: nat, k: nat, mem': Memory, addrs': seq<nat>)
    requires Holds(s, mem, addrs) && 0 < size < U32 - HEADER_SIZE * 2 && FitsFirst(mem, addrs, size, k)
    requires Grant(mem, addrs[k], size) == mem' && GrantedAddrs(mem, addrs, k, size) == addrs'
    requires forall a :: a in mem' <==> a in addrs'
    ensures Holds(AfterCall(s, Alloc(size)), mem', addrs')
    ensures OnlyHeadersChanged(s.b, AfterCall(s, Alloc(size)).b, mem'.Keys)
  {
    hide Tiled, HeaderAt, MallocStores, Grant, GrantedAddrs, Decide, OnlyHeadersChanged;
    FitFrom(mem, addrs, size, 0, k);
    assert mem[addrs[k]] == HeaderAt(s.b, addrs[k]);
    MallocKeepsTiling(s.b, addrs, BASE, END, k, size);
  }

  /** Release when there is nothing to merge with. */
  lemma ReleaseMarks(mem: Memory, a: nat)
    requires IsUsed(mem, a) && mem[a].prev == NULL && (mem[a].next != NULL ==> mem[a].next in mem && mem[a].next != a)
    requires mem[a].next != NULL ==> !IsFree(mem, mem[a].next)
    ensures Release(mem, a) == Marked(mem, a)
  {
  }

  lemma NothingMerged(mem: Memory, addrs: seq<nat>, i: nat)
    requires i < |addrs| && addrs[i] in mem && mem[addrs[i]].prev == NULL && !MergesNext(mem, addrs, i)
    ensures ReleasedChain(mem, addrs, i) == addrs
  {
  }

  /** The back link is NULL or leads to another header of the chain, one that is not free. */
  predicate NotFollowed(mem: Memory, addrs: seq<nat>, a: nat) {
    a in mem && var p := mem[a].prev; p == NULL || (p in addrs && p in mem && p != a && !mem[p].kind.FreeBlock?)
  }

  lemma NoLeftMerge(s: HeapState, mem: Memory, addrs: seq<nat>, i: nat)
    requires Holds(s, mem, addrs) && i < |addrs| && NotFollowed(mem, addrs, addrs[i])
    ensures !MergesLeft(s.b, addrs[i])
  {
    hide Load, Store, Tiled;
    var a := addrs[i];
    assert mem[a] == HeaderAt(s.b, a);
    var p := mem[a].prev;
    if p != NULL {
      assert mem[p] == HeaderAt(s.b, p);
      ChainSeparated(s.b, addrs, BASE, END);
      LoadOther(s.b, a, HEAP_BLOCK_FREE, p);
    }
  }

  function Unlinked(mem: Memory, a: nat): Memory
    requires a in mem
  {
    mem[a := mem[a].(prev := NULL)]
  }

  /** The header of x after free of a, where free does not merge to the left. */
  function HeaderAfter(mem: Memory, a: nat, x: nat): Header
    requires a in mem && LinksInside(Unlinked(mem, a), a) && x in Release(Unlinked(mem, a), a)
  {
    var h := Release(Unlinked(mem, a), a)[x];
    if x == a then h.(prev := mem[a].prev) else h
  }

  predicate FreedTo(b: Bytes, mem: Memory, a: nat, x: nat) {
    a in mem && LinksInside(Unlinked(mem, a), a) && x in Release(Unlinked(mem, a), a) &&
    Matches(b, x, HeaderAfter(mem, a, x))
  }

  lemma UsedWord(b: Bytes, addrs: seq<nat>, a: nat)
    requires a in addrs
    ensures IsUsed(Headers(b, addrs), a) <==> Load(b, a) == HEAP_BLOCK_USED
    ensures Headers(b, addrs)[a].prev == Load(b, a + 12)
  {
    hide Load;
  }

  lemma FreeStepShows(s: HeapState, mem: Memory, addrs: seq<nat>, i: nat)
    requires Holds(s, mem, addrs) && i < |addrs| && IsUsed(mem, addrs[i]) && NotFollowed(mem, addrs, addrs[i])
    ensures SafeFree(s.b, addrs, i) && TiledBytes(FreeStores(s.b, addrs[i]), FreedChain(s.b, addrs, i), BASE, END)
    ensures FreedChain(s.b, addrs, i) == ReleasedChain(Unlinked(mem, addrs[i]), addrs, i)
    ensures forall x :: x in addrs ==> FreedTo(FreeStores(s.b, addrs[i]), mem, addrs[i], x)
  {
    hide Tiled, Release, FreeStores, MergesLeft, OnlyHeadersChanged, ReleasedChain, Load, HeaderAt;
    var a := addrs[i];
    NoLeftMerge(s, mem, addrs, i);
    UsedWord(s.b, addrs, a);
    SeenIsTiled(s.b, addrs, BASE, END, i);
    FreeShows(s.b, addrs, BASE, END, i);
    assert Seen(s.b, addrs, i) == Unlinked(mem, a);
    SafeFreeKeepsTiling(s.b, addrs, BASE, END, i);
    hide Seen;
    forall x | x in addrs
      ensures FreedTo(FreeStores(s.b, a), mem, a, x)
    {
      ShownIsFreed(FreeStores(s.b, a), mem, a, x);
    }
  }

  lemma ShownIsFreed(b: Bytes, mem: Memory, a: nat, x: nat)
    requires a in mem && LinksInside(Unlinked(mem, a), a) && Shows(b, Release(Unlinked(mem, a), a), x)
    requires Load(b, x + 12) == HeaderAfter(mem, a, x).prev
    ensures FreedTo(b, mem, a, x)
  {
    hide Release, Load;
  }

  /** Header h is what x becomes when a is freed. */
  predicate Becomes(mem: Memory, a: nat, x: nat, h: Header) {
    a in mem && LinksInside(Unlinked(mem, a), a) && x in Release(Unlinked(mem, a), a) && HeaderAfter(mem, a, x) == h
  }

  /** free of block i is safe and leaves this chain with these headers. */
  ghost predicate FreesTo(s: HeapState, i: nat, mem: Memory, addrs: seq<nat>) {
    i < |s.addrs| && SafeCall(s, Dealloc(i)) && Holds(AfterCall(s, Dealloc(i)), mem, addrs)
  }

  /** A used block of the chain whose back link free does not follow. */
  ghost predicate PlainUsed(s: HeapState, mem: Memory, addrs: seq<nat>, i: nat) {
    Holds(s, mem, addrs) && i < |addrs| && IsUsed(mem, addrs[i]) && NotFollowed(mem, addrs, addrs[i])
  }

  /** The chain and its headers after free of a block that is not merged to the left. */
  lemma FreeStep(s: HeapState, mem: Memory, addrs: seq<nat>, i: nat, mem': Memory, addrs': seq<nat>)
    requires PlainUsed(s, mem, addrs, i)
    requires ReleasedChain(Unlinked(mem, addrs[i]), addrs, i) == addrs'
    requires forall x :: x in mem' <==> x in addrs'
    requires forall x :: x in addrs' ==> x in addrs && mem'[x].size < U32 && Becomes(mem, addrs[i], x, mem'[x])
    ensures FreesTo(s, i, mem', addrs')
  {
    hide Tiled, Release, SafeFree, FreeStores, FreedChain, ReleasedChain, Load, HeaderAt, HeaderAfter, Unlinked;
    FreeStepShows(s, mem, addrs, i);
    UsedWord(s.b, addrs, addrs[i]);
    var b' := FreeStores(s.b, addrs[i]);
    forall x | x in addrs'
      ensures HeaderAt(b', x) == mem'[x]
    {
      assert FreedTo(b', mem, addrs[i], x);
      assert mem'[x].(size := mem'[x].size % U32) == mem'[x];
    }
  }

  /** free without a neighbour to merge with marks the block, and that is all. */
  lemma MarkStep(s: HeapState, mem: Memory, addrs: seq<nat>, i: nat)
    requires PlainUsed(s, mem, addrs, i) && !MergesNext(mem, addrs, i)
    ensures FreesTo(s, i, Marked(mem, addrs[i]), addrs)
  {
    hide Tiled, Release, AfterCall, SafeCall, ReleasedChain, TiledBytes, Load, HeaderAt;
    var a := addrs[i];
    HoldsChain(s, mem, addrs, i);
    UnlinkedMarks(mem, addrs, i);
    forall x | x in addrs
      ensures Becomes(mem, a, x, Marked(mem, a)[x])
    {
      assert x in mem;
    }
    FreeStep(s, mem, addrs, i, Marked(mem, a), addrs);
  }

  lemma HoldsChain(s: HeapState, mem: Memory, addrs: seq<nat>, i: nat)
    requires Holds(s, mem, addrs) && i < |addrs|
    ensures addrs[i] in mem && mem[addrs[i]].next == NextAddr(addrs, i) && mem[addrs[i]].next != addrs[i]
    ensures forall x :: x in addrs <==> x in mem
    ensures forall x :: x in addrs ==> mem[x].size < U32
  {
    hide Load;
    LinkIsNext(mem, addrs, i);
    forall x | x in addrs
      ensures mem[x].size < U32
    {
      SmallSize(s.b, addrs, x);
    }
  }

  lemma UnlinkedMarks(mem: Memory, addrs: seq<nat>, i: nat)
    requires i < |addrs| && IsUsed(mem, addrs[i]) && !MergesNext(mem, addrs, i) && forall x :: x in addrs ==> x in mem
    requires mem[addrs[i]].next == NextAddr(addrs, i) && mem[addrs[i]].next != addrs[i]
    ensures var m, a := Unlinked(mem, addrs[i]), addrs[i];
            LinksInside(m, a) && Release(m, a) == Marked(m, a) && ReleasedChain(m, addrs, i) == addrs
  {
    NothingMerged(Unlinked(mem, addrs[i]), addrs, i);
    ReleaseMarks(Unlinked(mem, addrs[i]), addrs[i]);
  }

  lemma SmallSize(b: Bytes, addrs: seq<nat>, x: nat)
    requires x in addrs
    ensures HeaderAt(b, x).size < U32
  {
    hide Load;
  }

  lemma LinkIsNext(mem: Memory, addrs: seq<nat>, i: nat)
    requires Tiled(mem, addrs, BASE, END) && i < |addrs|
    ensures addrs[i] in mem && mem[addrs[i]].next == NextAddr(addrs, i) && mem[addrs[i]].next != addrs[i]
    ensures forall j :: 0 <= j < |addrs| ==> addrs[j] > NULL
  {
    TiledIncreasing(mem, addrs, BASE, END);
    NeighboursOk(mem, addrs, BASE, END, i);
  }

  // ----- the heap at the start -----

  lemma InitHeader(b: Bytes, base: nat)
    ensures HeaderAt(InitStores(b, base), base) == Header(FreeBlock, HEAP_SIZE, NULL, NULL)
  {
    hide Load, Store;
    var b1 := Store(b, base + 4, HEAP_SIZE);
    var b2 := Store(b1, base, HEAP_BLOCK_FREE);
    var b3 := Store(b2, base + 8, NULL);
    var b4 := Store(b3, base + 12, NULL);
    LoadStored(b, base + 4, HEAP_SIZE);
    LoadOther(b1, base, HEAP_BLOCK_FREE, base + 4);
    LoadStored(b1, base, HEAP_BLOCK_FREE);
    LoadOther(b2, base + 8, NULL, base);
    LoadOther(b2, base + 8, NULL, base + 4);
    LoadStored(b2, base + 8, NULL);
    LoadOther(b3, base + 12, NULL, base);
    LoadOther(b3, base + 12, NULL, base + 4);
    LoadOther(b3, base + 12, NULL, base + 8);
    LoadStored(b3, base + 12, NULL);
  }

  lemma InitialIsTiled(b: Bytes, base: nat)
    requires NULL < base && base + HEAP_SIZE <= U32
    ensures TiledBytes(InitStores(b, base), [base], base, base + HEAP_SIZE)
    ensures Headers(InitStores(b, base), [base]) == map[base := Header(FreeBlock, HEAP_SIZE, NULL, NULL)]
  {
    hide HeaderAt, InitStores;
    InitHeader(b, base);
  }

  lemma Start(b: Bytes) returns (s: HeapState)
    ensures s == HeapState(InitStores(b, BASE), [BASE]) && Holds(s, I0, [1000])
  {
    s := HeapState(InitStores(b, BASE), [BASE]);
    hide InitStores, HeaderAt;
    InitialIsTiled(b, BASE);
  }

  // ----- an unsafe free, with aligned requests -----

  const I0: Memory := map[1000 := Header(FreeBlock, HEAP_SIZE, 0, 0)]
  const I1: Memory := map[1000 := Header(UsedBlock, 112, 1112, 0), 1112 := Header(FreeBlock, HEAP_SIZE - 112, 0, 1000)]
  const I2: Memory :=
    map[1000 := Header(UsedBlock, 112, 1112, 0), 1112 := Header(UsedBlock, 112, 1224, 1000),
        1224 := Header(FreeBlock, HEAP_SIZE - 224, 0, 1112)]
  const I3: Memory :=
    map[1000 := Header(UsedBlock, 112, 1112, 0), 1112 := Header(UsedBlock, 112, 1224, 1000),
        1224 := Header(UsedBlock, 112, 1336, 1112), 1336 := Header(FreeBlock, HEAP_SIZE - 336, 0, 1224)]
  const C3: seq<nat> := [1000, 1112, 1224, 1336]
  const I4: Memory := I3[1112 := Header(FreeBlock, 112, 1224, 1000)]
  const I5: Memory := I4[1144 := Header(FreeBlock, 80, 1224, 1112)][1112 := Header(UsedBlock, 32, 1144, 1000)]
  const C5: seq<nat> := [1000, 1112, 1144, 1224, 1336]
  const I6: Memory := I5[1144 := Header(UsedBlock, 80, 1224, 1112)]
  const I7: Memory := I6[1112 := Header(FreeBlock, 32, 1144, 1000)]

  lemma FirstThree(s: HeapState)
    requires Holds(s, I0, [1000])
    ensures var s1 := AfterCall(s, Alloc(96));
            var s2 := AfterCall(s1, Alloc(96));
            Holds(AfterCall(s2, Alloc(96)), I3, C3)
  {
    hide Holds, Headers, OnlyHeadersChanged, AfterCall;
    AllocStep(s, I0, [1000], 96, 0, I1, [1000, 1112]);
    var s1 := AfterCall(s, Alloc(96));
    AllocStep(s1, I1, [1000, 1112], 96, 1, I2, [1000, 1112, 1224]);
    AllocStep(AfterCall(s1, Alloc(96)), I2, [1000, 1112, 1224], 96, 2, I3, C3);
  }

  lemma ReusedInPieces(s: HeapState)
    requires Holds(s, I4, C3)
    ensures var s5 := AfterCall(s, Alloc(16)); Holds(AfterCall(s5, Alloc(48)), I6, C5)
  {
    hide Holds, Headers, OnlyHeadersChanged, AfterCall;
    AllocStep(s, I4, C3, 16, 1, I5, C5);
    AllocStep(AfterCall(s, Alloc(16)), I5, C5, 48, 2, I6, C5);
  }

  lemma StaleLinkIsUnsafe(s: HeapState)
    requires Holds(s, I7, C5)
    ensures Enabled(s, Dealloc(3)) && Load(s.b, s.addrs[3]) == HEAP_BLOCK_USED
    ensures ClearCall(s, Dealloc(3)) && !SafeCall(s, Dealloc(3))
  {
    hide Load, Store, Tiled;
    assert I7[1224] == HeaderAt(s.b, 1224) && I7[1112] == HeaderAt(s.b, 1112);
    LoadOther(s.b, 1224, HEAP_BLOCK_FREE, 1112);
    assert C5[1] == 1112 && C5[3] == 1224 && C5[2] == 1144;
  }

  /**
   * malloc(96) three times, free of the second block, malloc(16), malloc(48), free of the first of these, free of
   * the third block: every free is of a block in use, every back link is clear, and in the end nothing tiles the arena.
   */
  lemma UnsafeFreeIsReached(b: Bytes) returns (run: seq<HeapState>, calls: seq<Call>)
    ensures |calls| == 8 && IsHeapRun(run, calls, BASE, END) && run[0] == HeapState(InitStores(b, BASE), [BASE])
    ensures forall i :: 0 <= i < 8 ==> AlignedCall(calls[i]) && (i < 7 ==> SafeCall(run[i], calls[i]))
    ensures forall i :: 0 <= i < 8 && calls[i].Dealloc? ==> Load(run[i].b, run[i].addrs[calls[i].i]) == HEAP_BLOCK_USED
    ensures !Tileable(run[8].b, BASE, END)
  {
    hide InitStores;
    var s := Start(b);
    hide Holds, Headers, AfterCall, Tileable, TiledBytes, Load, SafeFree, ClearLink, Decide;
    calls := [Alloc(96), Alloc(96), Alloc(96), Dealloc(1), Alloc(16), Alloc(48), Dealloc(1), Dealloc(3)];
    var s1 := AfterCall(s, Alloc(96));
    var s2 := AfterCall(s1, Alloc(96));
    var s3 := AfterCall(s2, Alloc(96));
    FirstThree(s);
    HoldsBlocks(s3, I3, C3);
    MarkStep(s3, I3, C3, 1);
    var s4 := AfterCall(s3, Dealloc(1));
    ReusedInPieces(s4);
    var s5 := AfterCall(s4, Alloc(16));
    var s6 := AfterCall(s5, Alloc(48));
    HoldsBlocks(s6, I6, C5);
    MarkStep(s6, I6, C5, 1);
    var s7 := AfterCall(s6, Dealloc(1));
    StaleLinkIsUnsafe(s7);
    HoldsBlocks(s7, I7, C5);
    run := [s, s1, s2, s3, s4, s5, s6, s7, AfterCall(s7, Dealloc(3))];
    HoldsTiled(s, I0, [1000]);
    FirstUnsafeFreeBreaksTiling(run, calls, BASE, END, 7);
  }

  lemma HoldsBlocks(s: HeapState, mem: Memory, addrs: seq<nat>)
    requires Holds(s, mem, addrs)
    ensures s.addrs == addrs && forall i :: 0 <= i < |addrs| ==>
      addrs[i] in mem && (mem[addrs[i]].kind.UsedBlock? <==> Load(s.b, addrs[i]) == HEAP_BLOCK_USED)
  {
    hide Load, Tiled;
    forall i | 0 <= i < |addrs|
      ensures addrs[i] in mem && mem[addrs[i]] == HeaderAt(s.b, addrs[i])
    {
      assert addrs[i] in addrs;
    }
  }

  lemma HoldsTiled(s: HeapState, mem: Memory, addrs: seq<nat>)
    requires Holds(s, mem, addrs)
    ensures TiledBytes(s.b, s.addrs, BASE, END)
  {
  }

  // ----- a back link into the middle of a header, with requests that are not aligned -----

  const J1: Memory := map[1000 := Header(UsedBlock, 116, 1116, 0), 1116 := Header(FreeBlock, HEAP_SIZE - 116, 0, 1000)]
  const J2: Memory :=
    map[1000 := Header(UsedBlock, 116, 1116, 0), 1116 := Header(UsedBlock, 116, 1232, 1000),
        1232 := Header(FreeBlock, HEAP_SIZE - 232, 0, 1116)]
  const J3: Memory :=
    map[1000 := Header(UsedBlock, 116, 1116, 0), 1116 := Header(UsedBlock, 116, 1232, 1000),
        1232 := Header(UsedBlock, 116, 1348, 1116), 1348 := Header(FreeBlock, HEAP_SIZE - 348, 0, 1232)]
  const D3: seq<nat> := [1000, 1116, 1232, 1348]
  const J4: Memory := J3[1116 := Header(FreeBlock, 116, 1232, 1000)]
  const J5: Memory :=
    map[1000 := Header(FreeBlock, 232, 1232, 0), 1232 := Header(UsedBlock, 116, 1348, 1116),
        1348 := Header(FreeBlock, HEAP_SIZE - 348, 0, 1232)]
  const D5: seq<nat> := [1000, 1232, 1348]
  const J6: Memory :=
    map[1000 := Header(UsedBlock, 120, 1120, 0), 1120 := Header(FreeBlock, 112, 1232, 1000),
        1232 := Header(UsedBlock, 116, 1348, 1116), 1348 := Header(FreeBlock, HEAP_SIZE - 348, 0, 1232)]
  const D6: seq<nat> := [1000, 1120, 1232, 1348]

  lemma ThreeHundreds(s: HeapState)
    requires Holds(s, I0, [1000])
    ensures var s1 := AfterCall(s, Alloc(100));
            var s2 := AfterCall(s1, Alloc(100));
            Holds(AfterCall(s2, Alloc(100)), J3, D3)
  {
    hide Holds, Headers, OnlyHeadersChanged, AfterCall;
    AllocStep(s, I0, [1000], 100, 0, J1, [1000, 1116]);
    var s1 := AfterCall(s, Alloc(100));
    AllocStep(s1, J1, [1000, 1116], 100, 1, J2, [1000, 1116, 1232]);
    AllocStep(AfterCall(s1, Alloc(100)), J2, [1000, 1116, 1232], 100, 2, J3, D3);
  }

  /** Freeing the first block swallows the second, whose header stays behind, still marked free. */
  lemma SwallowSecond(s: HeapState)
    requires Holds(s, J4, D3)
    ensures FreesTo(s, 0, J5, D5) && Load(AfterCall(s, Dealloc(0)).b, 1116) == HEAP_BLOCK_FREE
  {
    hide Load, Tiled, Headers, Holds, AfterCall, SafeCall, FreedTo, SafeFree, TiledBytes, FreedChain;
    assert D3[0] == 1000 && D3[1] == 1116;
    HoldsBlocks(s, J4, D3);
    SwallowHeaders();
    FreeStep(s, J4, D3, 0, J5, D5);
    FreeStepShows(s, J4, D3, 0);
    AfterFree(s, 0);
    DeadHeaderStays(FreeStores(s.b, 1000));
  }

  lemma AfterFree(s: HeapState, i: nat)
    requires i < |s.addrs| && Load(s.b, s.addrs[i]) == HEAP_BLOCK_USED
    ensures AfterCall(s, Dealloc(i)).b == FreeStores(s.b, s.addrs[i])
  {
  }

  lemma SwallowHeaders()
    ensures ReleasedChain(Unlinked(J4, 1000), D3, 0) == D5
    ensures forall x :: x in D5 ==> Becomes(J4, 1000, x, J5[x])
  {
    assert Unlinked(J4, 1000) == J4;
    assert Release(J4, 1000) == J4[1000 := Header(FreeBlock, 232, 1232, 0)];
    assert D3[..1] + D3[2..] == D5;
  }

  lemma DeadHeaderStays(b: Bytes)
    requires FreedTo(b, J4, 1000, 1116)
    ensures Load(b, 1116) == HEAP_BLOCK_FREE
  {
    hide Load;
    assert Unlinked(J4, 1000) == J4;
    assert Release(J4, 1000)[1116].kind == FreeBlock;
  }

  /** malloc puts a header four bytes behind the one that stayed, and leaves its first word alone. */
  lemma HeaderBehind(s: HeapState)
    requires Holds(s, J5, D5) && Load(s.b, 1116) == HEAP_BLOCK_FREE
    ensures var s' := AfterCall(s, Alloc(104)); Holds(s', J6, D6) && Load(s'.b, 1116) == HEAP_BLOCK_FREE
  {
    hide Holds, Headers, AfterCall;
    AllocStep(s, J5, D5, 104, 0, J6, D6);
    var b' := AfterCall(s, Alloc(104)).b;
    forall x | 1116 <= x < 1120
      ensures b'(x) == s.b(x)
    {
      assert forall a :: a in J6.Keys ==> !InHeader(x, a);
    }
  }

  /** Following that link stores over the type and the size of the header behind. */
  lemma OverlapStores(b: Bytes)
    requires Load(b, 1232) == HEAP_BLOCK_USED && Load(b, 1236) == 116 && Load(b, 1240) == 1348 && Load(b, 1244) == 1116
    requires Load(b, 1116) == HEAP_BLOCK_FREE && Load(b, 1120) == HEAP_BLOCK_FREE
    requires Load(b, 1348) == HEAP_BLOCK_FREE && Load(b, 1352) == HEAP_SIZE - 348
    ensures KindOf(Load(FreeStores(b, 1232), 1120)) == NoBlock
    ensures forall x: nat :: 1000 <= x < 1016 ==> FreeStores(b, 1232)(x) == b(x)
  {
    hide Load, Store;
    var b1 := Store(b, 1232, HEAP_BLOCK_FREE);
    forall c | c in {1236, 1240, 1244, 1116, 1120, 1348, 1352}
      ensures Load(b1, c) == Load(b, c)
    {
      LoadOther(b, 1232, HEAP_BLOCK_FREE, c);
    }
    var b2 := Store(b1, 1124, 1348);
    forall c | c in {1236, 1240, 1244, 1120, 1348, 1352}
      ensures Load(b2, c) == Load(b1, c)
    {
      LoadOther(b1, 1124, 1348, c);
    }
    LoadStored(b1, 1124, 1348);
    var b3 := Store(b2, 1360, 1116);
    forall c | c in {1236, 1244, 1120, 1124, 1348, 1352}
      ensures Load(b3, c) == Load(b2, c)
    {
      LoadOther(b2, 1360, 1116, c);
    }
    var t := Wrap(HEAP_BLOCK_FREE + 116);
    var b4 := Store(b3, 1120, t);
    forall c | c in {1244, 1124, 1348, 1352}
      ensures Load(b4, c) == Load(b3, c)
    {
      LoadOther(b3, 1120, t, c);
    }
    LoadStored(b3, 1120, t);
    assert MergePrevStores(b1, 1232) == MergedBytes(b4, 1116);
    OverlapStoresNext(b4, t);
    forall x: nat | 1000 <= x < 1016
      ensures FreeStores(b, 1232)(x) == b(x)
    {
      ByteOther(b, 1232, HEAP_BLOCK_FREE, x);
      ByteOther(b1, 1124, 1348, x);
      ByteOther(b2, 1360, 1116, x);
      ByteOther(b3, 1120, t, x);
    }
  }

  lemma OverlapStoresNext(b: Bytes, t: nat)
    requires t == Wrap(HEAP_BLOCK_FREE + 116) && Load(b, 1120) == t && Load(b, 1124) == 1348
    requires Load(b, 1348) == HEAP_BLOCK_FREE && Load(b, 1352) == HEAP_SIZE - 348
    ensures KindOf(Load(MergeNextStores(b, 1116), 1120)) == NoBlock
    ensures forall x: nat :: 1000 <= x < 1016 ==> MergeNextStores(b, 1116)(x) == b(x)
  {
    hide Load, Store;
    var u := Wrap(t + (HEAP_SIZE - 348));
    var b1 := Store(b, 1120, u);
    LoadStored(b, 1120, u);
    LoadOther(b, 1120, u, 1124);
    var v := Load(b1, 1356);
    LoadOther(b1, 1124, v, 1120);
    assert MergeNextStores(b, 1116) == Store(b1, 1124, v);
    forall x: nat | 1000 <= x < 1016
      ensures MergeNextStores(b, 1116)(x) == b(x)
    {
      ByteOther(b, 1120, u, x);
      ByteOther(b1, 1124, v, x);
    }
  }

  /** The chain from the base runs into the spoilt header. */
  lemma SpoiltHeader(b: Bytes)
    requires HeaderAt(b, 1000) == Header(UsedBlock, 120, 1120, 0) && KindOf(Load(b, 1120)) == NoBlock
    ensures !Tileable(b, BASE, END)
  {
    hide Load;
    forall addrs: seq<nat>
      ensures !TiledBytes(b, addrs, BASE, END)
    {
      if TiledBytes(b, addrs, BASE, END) {
        var mem := Headers(b, addrs);
        assert BlockOk(mem, addrs, 0, END) && addrs[0] == BASE;
        NeighboursOk(mem, addrs, BASE, END, 0);
        assert false;
      }
    }
  }

  /**
   * malloc(100) three times, free of the second block, free of the first, malloc(104), free of the third: the last
   * back link leads four bytes in front of a header, so the last free is not clear, and nothing tiles the arena.
   */
  lemma OverlappedLinkBreaksTiling(b: Bytes) returns (run: seq<HeapState>, calls: seq<Call>)
    ensures |calls| == 7 && IsHeapRun(run, calls, BASE, END) && run[0] == HeapState(InitStores(b, BASE), [BASE])
    ensures forall i :: 0 <= i < 6 ==> SafeCall(run[i], calls[i])
    ensures forall i :: 0 <= i < 7 && calls[i].Dealloc? ==> Load(run[i].b, run[i].addrs[calls[i].i]) == HEAP_BLOCK_USED
    ensures !ClearCall(run[6], calls[6]) && !Tileable(run[7].b, BASE, END)
  {
    hide InitStores;
    var s := Start(b);
    hide Holds, Headers, AfterCall, Tileable, TiledBytes, Load, SafeFree, ClearLink, Decide;
    calls := [Alloc(100), Alloc(100), Alloc(100), Dealloc(1), Dealloc(0), Alloc(104), Dealloc(2)];
    var s1 := AfterCall(s, Alloc(100));
    var s2 := AfterCall(s1, Alloc(100));
    var s3 := AfterCall(s2, Alloc(100));
    ThreeHundreds(s);
    HoldsBlocks(s3, J3, D3);
    MarkStep(s3, J3, D3, 1);
    var s4 := AfterCall(s3, Dealloc(1));
    HoldsBlocks(s4, J4, D3);
    SwallowSecond(s4);
    var s5 := AfterCall(s4, Dealloc(0));
    HeaderBehind(s5);
    var s6 := AfterCall(s5, Alloc(104));
    HoldsBlocks(s6, J6, D6);
    LastFreeSpoils(s6);
    run := [s, s1, s2, s3, s4, s5, s6, AfterCall(s6, Dealloc(2))];
    HoldsTiled(s, I0, [1000]);
  }

  lemma LastFreeSpoils(s: HeapState)
    requires Holds(s, J6, D6) && Load(s.b, 1116) == HEAP_BLOCK_FREE
    ensures Enabled(s, Dealloc(2)) && Load(s.b, s.addrs[2]) == HEAP_BLOCK_USED
    ensures !ClearCall(s, Dealloc(2)) && !Tileable(AfterCall(s, Dealloc(2)).b, BASE, END)
  {
    hide Load, Store, Tiled, FreeStores;
    assert D6[2] == 1232 && D6[1] == 1120;
    assert J6[1232] == HeaderAt(s.b, 1232) && J6[1120] == HeaderAt(s.b, 1120);
    assert J6[1348] == HeaderAt(s.b, 1348) && J6[1000] == HeaderAt(s.b, 1000);
    LoadOther(s.b, 1232, HEAP_BLOCK_FREE, 1116);
    assert MergesLeft(s.b, 1232) && 1120 in D6 && !Apart(1120, 1116);
    OverlapStores(s.b);
    SameFirstHeader(s.b, FreeStores(s.b, 1232));
    SpoiltHeader(FreeStores(s.b, 1232));
  }

  lemma SameFirstHeader(b: Bytes, b': Bytes)
    requires forall x: nat :: 1000 <= x < 1016 ==> b'(x) == b(x)
    ensures HeaderAt(b', 1000) == HeaderAt(b, 1000)
  {
  }
}
