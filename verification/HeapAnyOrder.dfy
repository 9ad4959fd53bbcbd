/** Runs of malloc and free in any order, with the program writing into its blocks in between. */
module HeapAnyOrder {
  import opened Common
  import opened Heap
  import opened HeapBytes
  import opened HeapCalls

  /** `addrs` is the chain that the bytes are meant to hold. */
  datatype HeapState = HeapState(b: Bytes, addrs: seq<nat>)

  /** A call of malloc, of free on the payload of block i of the chain, or any stores of the program. */
  datatype Call = Alloc(size: nat) | Dealloc(i: nat) | Write(after: Bytes)

  /** The program keeps to the payloads of the blocks it was given. */
  ghost predicate OnlyPayloadsChanged(b: Bytes, b': Bytes, addrs: seq<nat>) {
    forall x: nat :: (forall j :: 0 <= j < |addrs| ==> !InPayload(b, addrs, j, x)) ==> b'(x) == b(x)
  }

  ghost predicate Enabled(s: HeapState, call: Call) {
    match call
    case Alloc(size) => size < U32 - HEADER_SIZE * 2
    case Dealloc(i) => i < |s.addrs|
    case Write(after) => OnlyPayloadsChanged(s.b, after, s.addrs)
  }

  ghost function AfterCall(s: HeapState, call: Call): HeapState
    requires Enabled(s, call)
  {
    match call
    case Alloc(size) =>
      var h := Headers(s.b, s.addrs);
      var k := FirstFit(h, s.addrs, size, 0);
      if size == 0 || k == |s.addrs| then s
      else HeapState(MallocStores(s.b, s.addrs[k], size), GrantedAddrs(h, s.addrs, k, size))
    case Dealloc(i) =>
      if Load(s.b, s.addrs[i]) != HEAP_BLOCK_USED then s
      else HeapState(FreeStores(s.b, s.addrs[i]), FreedChain(s.b, s.addrs, i))
    case Write(after) => HeapState(after, s.addrs)
  }

  /** The call is not a free of a used block that follows its back link anywhere it should not. */
  ghost predicate SafeCall(s: HeapState, call: Call)
    requires Enabled(s, call)
  {
    call.Dealloc? && Load(s.b, s.addrs[call.i]) == HEAP_BLOCK_USED ==> SafeFree(s.b, s.addrs, call.i)
  }

  /** Its back link, if followed, does not lead into the middle of a header. */
  ghost predicate ClearCall(s: HeapState, call: Call)
    requires Enabled(s, call)
  {
    call.Dealloc? && Load(s.b, s.addrs[call.i]) == HEAP_BLOCK_USED ==> ClearLink(s.b, s.addrs, call.i)
  }

  ghost predicate IsHeapRun(run: seq<HeapState>, calls: seq<Call>, base: nat, end: nat) {
    && |run| == |calls| + 1 && TiledBytes(run[0].b, run[0].addrs, base, end)
    && forall i :: 0 <= i < |calls| ==> Enabled(run[i], calls[i]) && run[i + 1] == AfterCall(run[i], calls[i])
  }

  lemma WriteKeepsHeaders(s: HeapState, after: Bytes, base: nat, end: nat)
    requires TiledBytes(s.b, s.addrs, base, end) && OnlyPayloadsChanged(s.b, after, s.addrs)
    ensures Headers(after, s.addrs) == Headers(s.b, s.addrs) && TiledBytes(after, s.addrs, base, end)
  {
    hide Tiled, InPayload;
    forall a | a in s.addrs
      ensures HeaderAt(after, a) == HeaderAt(s.b, a)
    {
      forall x | InHeader(x, a)
        ensures after(x) == s.b(x)
      {
        HeaderByteKept(s, after, base, end, a, x);
      }
    }
  }

  lemma HeaderByteKept(s: HeapState, after: Bytes, base: nat, end: nat, a: nat, x: nat)
    requires TiledBytes(s.b, s.addrs, base, end) && OnlyPayloadsChanged(s.b, after, s.addrs)
    requires a in s.addrs && InHeader(x, a)
    ensures after(x) == s.b(x)
  {
    hide Tiled, InPayload;
    forall j | 0 <= j < |s.addrs|
      ensures !InPayload(s.b, s.addrs, j, x)
    {
      if InPayload(s.b, s.addrs, j, x) {
        PayloadHasNoHeader(s.b, s.addrs, base, end, j, x);
      }
    }
  }

  lemma SafeCallKeepsTiling(s: HeapState, call: Call, base: nat, end: nat)
    requires TiledBytes(s.b, s.addrs, base, end) && Enabled(s, call) && SafeCall(s, call)
    ensures var s' := AfterCall(s, call); TiledBytes(s'.b, s'.addrs, base, end)
  {
    hide Tiled, MallocStores, FreeStores, FreedChain, GrantedAddrs, Decide, Load, Seen, OnlyPayloadsChanged;
    match call
    case Alloc(size) =>
      var k := FirstFit(Headers(s.b, s.addrs), s.addrs, size, 0);
      if size > 0 && k < |s.addrs| {
        MallocKeepsTiling(s.b, s.addrs, base, end, k, size);
      }
    case Dealloc(i) =>
      if Load(s.b, s.addrs[i]) == HEAP_BLOCK_USED {
        SafeFreeKeepsTiling(s.b, s.addrs, base, end, i);
      }
    case Write(after) => WriteKeepsHeaders(s, after, base, end);
  }

  /** Over every run in any order: the arena is tiled as long as every free was safe. */
  lemma {:induction false} AnyOrderRunTiled(run: seq<HeapState>, calls: seq<Call>, base: nat, end: nat, n: nat)
    requires IsHeapRun(run, calls, base, end) && n <= |calls|
    requires forall i :: 0 <= i < n ==> SafeCall(run[i], calls[i])
    ensures TiledBytes(run[n].b, run[n].addrs, base, end)
  {
    hide AfterCall, SafeCall, TiledBytes, Enabled;
    if n > 0 {
      AnyOrderRunTiled(run, calls, base, end, n - 1);
      SafeCallKeepsTiling(run[n - 1], calls[n - 1], base, end);
    }
  }

  /** While every free was safe, a clear call leaves some chain that tiles the arena exactly if it is safe too. */
  lemma FirstUnsafeFreeBreaksTiling(run: seq<HeapState>, calls: seq<Call>, base: nat, end: nat, n: nat)
    requires IsHeapRun(run, calls, base, end) && n < |calls|
    requires forall i :: 0 <= i < n ==> SafeCall(run[i], calls[i])
    requires ClearCall(run[n], calls[n])
    ensures Tileable(run[n + 1].b, base, end) <==> SafeCall(run[n], calls[n])
  {
    AnyOrderRunTiled(run, calls, base, end, n);
    hide Tiled, MallocStores, FreeStores, FreedChain, GrantedAddrs, SafeFree, Load, Seen, OnlyPayloadsChanged, ClearLink;
    if SafeCall(run[n], calls[n]) {
      SafeCallKeepsTiling(run[n], calls[n], base, end);
    } else {
      FreeKeepsTilingIff(run[n].b, run[n].addrs, base, end, calls[n].i);
    }
  }

  // ----- requests in multiples of the header size -----

  predicate Aligned(x: nat, base: nat) { x % HEADER_SIZE == base % HEADER_SIZE }

  /** All headers are a multiple of the header size apart, and so are the places that their back links name. */
  ghost predicate AlignedChain(b: Bytes, addrs: seq<nat>, base: nat) {
    forall a :: a in addrs ==> Aligned(a, base) && (Load(b, a + 12) == NULL || Aligned(Load(b, a + 12), base))
  }

  lemma AlignedApart(x: nat, y: nat, base: nat)
    requires Aligned(x, base) && Aligned(y, base) && x != y
    ensures Apart(x, y)
  {
  }

  /** Then no back link leads into the middle of a header. */
  lemma AlignedIsClear(b: Bytes, addrs: seq<nat>, base: nat, i: nat)
    requires AlignedChain(b, addrs, base) && i < |addrs|
    ensures ClearLink(b, addrs, i)
  {
    hide Load, Aligned;
    var p := Load(b, addrs[i] + 12);
    assert addrs[i] in addrs;
    if p != NULL && p !in addrs {
      forall a | a in addrs
        ensures Apart(a, p)
      {
        AlignedApart(a, p, base);
      }
    }
  }

  predicate AlignedCall(call: Call) { call.Alloc? ==> call.size % HEADER_SIZE == 0 }

  lemma GrantLinks(mem: Memory, addrs: seq<nat>, k: nat, size: nat)
    requires k < |addrs| && IsFree(mem, addrs[k]) && Decide(mem[addrs[k]].size, size) != Skip && 0 < size < U32 - HEADER_SIZE * 2
    requires forall a :: a in addrs ==> a in mem
    ensures var m := Grant(mem, addrs[k], size);
            forall x :: x in GrantedAddrs(mem, addrs, k, size) ==>
              x in m && ((x in addrs && m[x].prev == mem[x].prev) || (x == addrs[k] + size + HEADER_SIZE && m[x].prev == addrs[k])
                         || (x in addrs && m[x].prev == addrs[k]))
  {
    hide Decide;
    DecideIsExact(mem[addrs[k]].size, size);
  }

  lemma AlignedCut(a: nat, size: nat, base: nat)
    requires Aligned(a, base) && size % HEADER_SIZE == 0
    ensures Aligned(a + size + HEADER_SIZE, base)
  {
  }

  lemma AllocKeepsAligned(s: HeapState, size: nat, base: nat, end: nat)
    requires TiledBytes(s.b, s.addrs, base, end) && AlignedChain(s.b, s.addrs, base)
    requires Enabled(s, Alloc(size)) && size % HEADER_SIZE == 0
    ensures var s' := AfterCall(s, Alloc(size)); AlignedChain(s'.b, s'.addrs, base)
  {
    hide TiledBytes, MallocStores, Decide, Grant, GrantedAddrs, AlignedChain;
    var h := Headers(s.b, s.addrs);
    var k := FirstFit(h, s.addrs, size, 0);
    if size > 0 && k < |s.addrs| {
      GrantKeepsAligned(s.b, s.addrs, base, end, k, size);
    }
  }

  lemma GrantKeepsAligned(b: Bytes, addrs: seq<nat>, base: nat, end: nat, k: nat, size: nat)
    requires TiledBytes(b, addrs, base, end) && AlignedChain(b, addrs, base) && size % HEADER_SIZE == 0
    requires k < |addrs| && 0 < size < U32 - HEADER_SIZE * 2
    requires IsFree(Headers(b, addrs), addrs[k]) && Decide(HeaderAt(b, addrs[k]).size, size) != Skip
    ensures AlignedChain(MallocStores(b, addrs[k], size), GrantedAddrs(Headers(b, addrs), addrs, k, size), base)
  {
    hide TiledBytes, MallocStores, Decide, Grant, GrantedAddrs, OnlyHeadersChanged, Aligned, Load;
    var h := Headers(b, addrs);
    MallocKeepsTiling(b, addrs, base, end, k, size);
    GrantLinks(h, addrs, k, size);
    var b', addrs', m := MallocStores(b, addrs[k], size), GrantedAddrs(h, addrs, k, size), Grant(h, addrs[k], size);
    assert addrs[k] in addrs;
    AlignedCut(addrs[k], size, base);
    forall x | x in addrs'
      ensures Aligned(x, base) && (Load(b', x + 12) == NULL || Aligned(Load(b', x + 12), base))
    {
      assert HeaderAt(b', x) == m[x];
      if x in addrs {
        assert h[x] == HeaderAt(b, x);
      }
    }
  }

  /** Back links after free are old ones, the freed block's, or NULL. */
  lemma FreeLinks(b: Bytes, addrs: seq<nat>, base: nat, end: nat, i: nat, x: nat)
    requires Freeable(b, addrs, base, end, i) && x in addrs
    ensures Load(FreeStores(b, addrs[i]), x + 12) in {NULL, Load(b, x + 12), Load(b, addrs[i] + 12)}
  {
    hide Tiled, Load, OnlyHeadersChanged, Release, FreeStores, MergesLeft, Shows;
    var a := addrs[i];
    FreeShows(b, addrs, base, end, i);
    LinkSeen(b, addrs, i, x);
    LinkSeen(b, addrs, i, a);
    hide Seen;
    HeapLinks.ReleaseLinks(Seen(b, addrs, i), a);
  }

  lemma FreeKeepsAligned(s: HeapState, i: nat, base: nat, end: nat)
    requires TiledBytes(s.b, s.addrs, base, end) && AlignedChain(s.b, s.addrs, base) && i < |s.addrs|
    requires Load(s.b, s.addrs[i]) == HEAP_BLOCK_USED
    ensures AlignedChain(AfterCall(s, Dealloc(i)).b, AfterCall(s, Dealloc(i)).addrs, base)
  {
    hide TiledBytes, Load, FreeStores, FreedChain, Aligned, ClearLink;
    AlignedIsClear(s.b, s.addrs, base, i);
    FreedChainInside(s.b, s.addrs, i);
    var a, b' := s.addrs[i], FreeStores(s.b, s.addrs[i]);
    forall x | x in s.addrs
      ensures Load(b', x + 12) in {NULL, Load(s.b, x + 12), Load(s.b, a + 12)}
    {
      FreeLinks(s.b, s.addrs, base, end, i, x);
    }
    assert a in s.addrs;
  }

  lemma LinkSeen(b: Bytes, addrs: seq<nat>, i: nat, x: nat)
    requires i < |addrs| && x in addrs
    ensures x in Seen(b, addrs, i) && Seen(b, addrs, i)[x].prev in {NULL, Load(b, x + 12)}
  {
    hide Load, MergesLeft;
  }

  lemma WriteKeepsAligned(s: HeapState, after: Bytes, base: nat, end: nat)
    requires TiledBytes(s.b, s.addrs, base, end) && AlignedChain(s.b, s.addrs, base)
    requires OnlyPayloadsChanged(s.b, after, s.addrs)
    ensures AlignedChain(after, s.addrs, base)
  {
    hide TiledBytes, OnlyPayloadsChanged, Aligned, Load;
    WriteKeepsHeaders(s, after, base, end);
    forall a | a in s.addrs
      ensures Load(after, a + 12) == Load(s.b, a + 12)
    {
      assert Headers(after, s.addrs)[a] == Headers(s.b, s.addrs)[a];
      assert HeaderAt(after, a) == HeaderAt(s.b, a);
    }
  }

  lemma CallKeepsAligned(s: HeapState, call: Call, base: nat, end: nat)
    requires TiledBytes(s.b, s.addrs, base, end) && AlignedChain(s.b, s.addrs, base)
    requires Enabled(s, call) && AlignedCall(call)
    ensures var s' := AfterCall(s, call); AlignedChain(s'.b, s'.addrs, base)
  {
    hide TiledBytes, AlignedChain, Load, Seen, MallocStores, FreeStores, FreedChain, GrantedAddrs, OnlyPayloadsChanged, Decide;
    match call
    case Alloc(size) => AllocKeepsAligned(s, size, base, end);
    case Dealloc(i) =>
      if Load(s.b, s.addrs[i]) == HEAP_BLOCK_USED {
        FreeKeepsAligned(s, i, base, end);
      }
    case Write(after) => WriteKeepsAligned(s, after, base, end);
  }

  /** With such requests every back link stays clear. */
  lemma {:induction false} AlignedRunClear(run: seq<HeapState>, calls: seq<Call>, base: nat, end: nat, n: nat)
    requires IsHeapRun(run, calls, base, end) && AlignedChain(run[0].b, run[0].addrs, base)
    requires n <= |calls| && forall i :: 0 <= i < |calls| ==> AlignedCall(calls[i])
    requires forall i :: 0 <= i < n ==> SafeCall(run[i], calls[i])
    ensures AlignedChain(run[n].b, run[n].addrs, base)
    ensures n < |calls| ==> ClearCall(run[n], calls[n])
  {
    hide TiledBytes, AfterCall, AlignedCall, SafeCall, AlignedChain, ClearLink;
    if n > 0 {
      AlignedRunClear(run, calls, base, end, n - 1);
      AnyOrderRunTiled(run, calls, base, end, n - 1);
      CallKeepsAligned(run[n - 1], calls[n - 1], base, end);
    }
    if n < |calls| && calls[n].Dealloc? {
      AlignedIsClear(run[n].b, run[n].addrs, base, calls[n].i);
    }
  }

  /**
   * If all requests are multiples of the header size, then in every run, whatever the program writes into its
   * blocks, the first call after which nothing tiles the arena is exactly the first unsafe free.
   */
  lemma AlignedRunTiledIff(run: seq<HeapState>, calls: seq<Call>, base: nat, end: nat, n: nat)
    requires IsHeapRun(run, calls, base, end) && AlignedChain(run[0].b, run[0].addrs, base)
    requires n < |calls| && forall i :: 0 <= i < |calls| ==> AlignedCall(calls[i])
    requires forall i :: 0 <= i < n ==> SafeCall(run[i], calls[i])
    ensures Tileable(run[n + 1].b, base, end) <==> SafeCall(run[n], calls[n])
  {
    hide TiledBytes, AfterCall, AlignedCall, SafeCall, AlignedChain, ClearCall, Tileable;
    AlignedRunClear(run, calls, base, end, n);
    FirstUnsafeFreeBreaksTiling(run, calls, base, end, n);
  }
}
