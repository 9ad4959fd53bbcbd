/** The heap as the C runtime keeps it: bytes, a list head, and the loads and stores of malloc and free. */
module MiniHeap {
  import opened Common
  import opened Heap
  import opened HeapBytes
  import opened HeapCalls
  import opened HeapAnyOrder
  import HeapExamples

  class MiniHeap {
    var mem: Bytes
    var head: nat
    ghost var addrs: seq<nat>
    ghost const base: nat
    ghost const end: nat

    ghost predicate Valid()
      reads this
    {
      TiledBytes(mem, addrs, base, end) && head == base
    }

    ghost function View(): HeapState
      reads this
    {
      HeapState(mem, addrs)
    }

    /** mini_crt_heap_init after brk returned `base`. */
    constructor (memory: Bytes, base: nat)
      requires NULL < base && base + HEAP_SIZE <= U32
      ensures Valid() && View() == HeapState(InitStores(memory, base), [base])
      ensures this.base == base && end == base + HEAP_SIZE
      ensures Headers(mem, addrs) == map[base := Header(FreeBlock, HEAP_SIZE, NULL, NULL)]
    {
      mem := InitStores(memory, base);
      head := base;
      addrs := [base];
      this.base := base;
      end := base + HEAP_SIZE;
      new;
      HeapExamples.InitialIsTiled(memory, base);
    }

    method Put(a: nat, v: nat)
      requires v < U32
      modifies this`mem
      ensures mem == Store(old(mem), a, v)
    {
      mem := Store(mem, a, v);
    }

    /** The list walk of malloc, in 32-bit arithmetic: the first free block it does not skip, or NULL. */
    method FindFit(size: nat) returns (header: nat)
      requires Valid() && 0 < size < U32
      ensures var k := FitIndex(mem, addrs, size);
              if k < |addrs| then header == addrs[k] > NULL else header == NULL
    {
      FirstBlock(mem, addrs, base, end);
      hide TiledBytes, FirstFit, Headers, Decide, WalksTo, FitIndex;
      WalkStart(mem, addrs, size);
      ghost var k := 0;
      header := head;
      while header != NULL
        invariant 0 <= k <= |addrs| && header == if k < |addrs| then addrs[k] else NULL
        invariant k < |addrs| ==> header > NULL
        invariant WalksTo(mem, addrs, size, k, FitIndex(mem, addrs, size))
        decreases |addrs| - k
      {
        WalkStep(mem, addrs, size, k, FitIndex(mem, addrs, size));
        var fits, next := Look(header, k, size);
        if fits {
          return;
        }
        header := next;
        k := k + 1;
      }
      WalkEnd(mem, addrs, size, FitIndex(mem, addrs, size));
    }

    /** The tests of malloc on one block, in 32-bit arithmetic, and the next block. */
    method Look(header: nat, ghost k: nat, size: nat) returns (fits: bool, next: nat)
      requires Valid() && k < |addrs| && header == addrs[k] && 0 < size < U32
      ensures fits <==> IsFree(Headers(mem, addrs), header) && Decide(Headers(mem, addrs)[header].size, size) != Skip
      ensures next == (if k + 1 < |addrs| then addrs[k + 1] else NULL) && (k + 1 < |addrs| ==> next > NULL)
    {
      hide TiledBytes, Load, Headers, Wrap, HeaderAt;
      Block(mem, addrs, base, end, k);
      var have := Load(mem, header + 4);
      TestIsDecide(have, size);
      hide Decide;
      fits := Load(mem, header) != HEAP_BLOCK_USED &&
              ((have > Wrap(size + HEADER_SIZE) && have <= Wrap(size + HEADER_SIZE * 2)) ||
               have > Wrap(size + HEADER_SIZE * 2));
      next := Load(mem, header + 8);
    }

    /** The stores of malloc into the block it found, for every 32-bit size. */
    method GrantAt(header: nat, size: nat)
      requires size < U32 && header < U32
      modifies this`mem
      ensures mem == MallocStores(old(mem), header, size)
    {
      hide Load, Store;
      var have := Load(mem, header + 4);
      if have > Wrap(size + HEADER_SIZE) && have <= Wrap(size + HEADER_SIZE * 2) {
        Put(header, HEAP_BLOCK_USED);
      } else {
        var next := Wrap(header + size + HEADER_SIZE);
        Put(next + 12, Wrap(header));
        Put(next + 8, Load(mem, header + 8));
        Put(next, HEAP_BLOCK_FREE);
        Put(next + 4, (Load(mem, header + 4) + U32 - Wrap(size + HEADER_SIZE)) % U32);
        Put(header + 8, next);
        Put(header + 4, Wrap(size + HEADER_SIZE));
        Put(header, HEAP_BLOCK_USED);
      }
    }

    /**
     * First fit. NULL leaves everything as it was and means that no free block was accepted; otherwise the first
     * one that was is cut or taken. While size + 32 does not wrap around, the arena stays tiled, the block was
     * free and holds at least `size` bytes, and no payload byte of a block in use changes.
     */
    method Malloc(size: nat) returns (ptr: nat)
      requires Valid() && size < U32
      modifies this`mem, this`addrs
      ensures var k := FitIndex(old(mem), old(addrs), size);
              && (ptr == NULL <==> size == 0 || k == |old(addrs)|)
              && (ptr == NULL ==> View() == old(View()))
              && (ptr != NULL ==> ptr == old(addrs)[k] + HEADER_SIZE && mem == MallocStores(old(mem), old(addrs)[k], size))
      ensures size < U32 - HEADER_SIZE * 2 && ptr == NULL && size > 0 ==> NoneFits(mem, addrs, size)
      ensures size < U32 - HEADER_SIZE * 2 ==> Valid()
      ensures size < U32 - HEADER_SIZE * 2 && ptr != NULL ==>
        Handed(old(mem), old(addrs), FitIndex(old(mem), old(addrs), size), size, mem, addrs)
    {
      if size == 0 {
        return NULL;
      }
      hide TiledBytes, MallocStores, NoneFits, Handed, FitIndex, Wrap;
      MallocOutcome(mem, addrs, base, end, size);
      var header := FindFit(size);
      if header == NULL {
        return NULL;
      }
      Commit(header, size);
      return header + HEADER_SIZE;
    }

    /** The stores into the block that the walk found, and the chain they make. */
    method Commit(header: nat, size: nat)
      requires Valid() && 0 < size < U32 && header < U32
      requires FitIndex(mem, addrs, size) < |addrs| && header == addrs[FitIndex(mem, addrs, size)]
      modifies this`mem, this`addrs
      ensures mem == MallocStores(old(mem), header, size)
      ensures size < U32 - HEADER_SIZE * 2 ==>
        Valid() && Handed(old(mem), old(addrs), FitIndex(old(mem), old(addrs), size), size, mem, addrs)
    {
      hide TiledBytes, MallocStores, NoneFits, Handed, FitIndex, NewChain, Wrap;
      MallocOutcome(mem, addrs, base, end, size);
      ghost var chain := NewChain(mem, addrs, FitIndex(mem, addrs, size), size);
      GrantAt(header, size);
      if size < U32 - HEADER_SIZE * 2 {
        addrs := chain;
      }
    }

    /** The merge with the previous block; returns the header to go on with. */
    method MergePrev(a: nat) returns (header: nat)
      modifies this`mem
      ensures MergedBytes(mem, header) == MergePrevStores(old(mem), a)
    {
      hide Load, Store;
      header := a;
      var prev := Load(mem, header + 12);
      if prev != NULL && Load(mem, prev) == HEAP_BLOCK_FREE {
        Put(prev + 8, Load(mem, header + 8));
        var next := Load(mem, header + 8);
        if next != NULL {
          Put(next + 12, Load(mem, header + 12));
        }
        prev := Load(mem, header + 12);
        Put(prev + 4, Wrap(Load(mem, prev + 4) + Load(mem, header + 4)));
        header := Load(mem, header + 12);
      }
    }

    /** The merge with the next block. */
    method MergeNext(header: nat)
      modifies this`mem
      ensures mem == MergeNextStores(old(mem), header)
    {
      hide Load, Store;
      var next := Load(mem, header + 8);
      if next != NULL && Load(mem, next) == HEAP_BLOCK_FREE {
        Put(header + 4, Wrap(Load(mem, header + 4) + Load(mem, next + 4)));
        Put(header + 8, Load(mem, Load(mem, header + 8) + 8));
      }
    }

    /**
     * free of a payload whose header is a block of the chain. If the free is safe the arena stays tiled; if its
     * back link is clear and it is not safe, nothing tiles the arena any more.
     */
    method Free(ptr: nat, ghost i: nat)
      requires Valid() && i < |addrs| && ptr == addrs[i] + HEADER_SIZE
      modifies this`mem, this`addrs
      ensures mem == FreeStores(old(mem), old(addrs)[i])
      ensures !HeaderAt(old(mem), old(addrs)[i]).kind.UsedBlock? ==> View() == old(View())
      ensures HeaderAt(old(mem), old(addrs)[i]).kind.UsedBlock? && SafeFree(old(mem), old(addrs), i) ==>
        Valid() && addrs == FreedChain(old(mem), old(addrs), i)
      ensures HeaderAt(old(mem), old(addrs)[i]).kind.UsedBlock? && ClearLink(old(mem), old(addrs), i) ==>
        (Tileable(mem, base, end) <==> SafeFree(old(mem), old(addrs), i))
    {
      hide Tiled, Load, Store, MergePrevStores, MergeNextStores, SafeFree, ClearLink, FreedChain;
      var header := ptr - HEADER_SIZE;
      if Load(mem, header) != HEAP_BLOCK_USED {
        return;
      }
      ghost var b, chain := mem, addrs;
      Put(header, HEAP_BLOCK_FREE);
      header := MergePrev(header);
      MergeNext(header);
      hide FreeStores;
      if SafeFree(b, chain, i) {
        assert ClearLink(b, chain, i) by { SafeIsClear(b, chain, i); }
        SafeFreeKeepsTiling(b, chain, base, end, i);
        addrs := FreedChain(b, chain, i);
      }
      if ClearLink(b, chain, i) {
        HeapCalls.FreeKeepsTilingIff(b, chain, base, end, i);
      }
    }
  }

  lemma SafeIsClear(b: Bytes, addrs: seq<nat>, i: nat)
    requires i < |addrs| && SafeFree(b, addrs, i)
    ensures ClearLink(b, addrs, i)
  {
  }

  lemma FirstBlock(b: Bytes, addrs: seq<nat>, base: nat, end: nat)
    requires TiledBytes(b, addrs, base, end)
    ensures addrs != [] && addrs[0] == base > NULL
  {
  }

  /** The block that malloc takes. */
  ghost function FitIndex(b: Bytes, addrs: seq<nat>, size: nat): (k: nat)
    ensures k <= |addrs|
  {
    FirstFit(Headers(b, addrs), addrs, size, 0)
  }

  /** The walk from block k on ends at block `fit`. */
  ghost predicate WalksTo(b: Bytes, addrs: seq<nat>, size: nat, k: nat, fit: nat) {
    k <= |addrs| && FirstFit(Headers(b, addrs), addrs, size, k) == fit
  }

  lemma WalkStart(b: Bytes, addrs: seq<nat>, size: nat)
    ensures WalksTo(b, addrs, size, 0, FitIndex(b, addrs, size))
  {
  }

  lemma WalkStep(b: Bytes, addrs: seq<nat>, size: nat, k: nat, fit: nat)
    requires k < |addrs| && WalksTo(b, addrs, size, k, fit)
    ensures addrs[k] in Headers(b, addrs)
    ensures if IsFree(Headers(b, addrs), addrs[k]) && Decide(Headers(b, addrs)[addrs[k]].size, size) != Skip then fit == k
            else WalksTo(b, addrs, size, k + 1, fit)
  {
    hide Decide;
  }

  lemma WalkEnd(b: Bytes, addrs: seq<nat>, size: nat, fit: nat)
    requires WalksTo(b, addrs, size, |addrs|, fit)
    ensures fit == |addrs|
  {
  }

  /** The two tests of the walk together. */
  lemma TestIsDecide(have: nat, size: nat)
    ensures Decide(have, size) != Skip <==>
            (have > Wrap(size + HEADER_SIZE) && have <= Wrap(size + HEADER_SIZE * 2)) || have > Wrap(size + HEADER_SIZE * 2)
  {
  }

  /** What the walk reads at block k. */
  lemma Block(b: Bytes, addrs: seq<nat>, base: nat, end: nat, k: nat)
    requires TiledBytes(b, addrs, base, end) && k < |addrs|
    ensures var h := Headers(b, addrs);
            addrs[k] in h && h[addrs[k]].size == Load(b, addrs[k] + 4) &&
            (IsFree(h, addrs[k]) <==> Load(b, addrs[k]) != HEAP_BLOCK_USED)
    ensures Load(b, addrs[k] + 8) == (if k + 1 < |addrs| then addrs[k + 1] else NULL)
    ensures addrs[0] == base && addrs[k] > NULL && (k + 1 < |addrs| ==> addrs[k + 1] > NULL)
  {
    hide Load;
    NeighboursOk(Headers(b, addrs), addrs, base, end, k);
  }

  lemma FitFits(b: Bytes, addrs: seq<nat>, size: nat)
    ensures var k := FitIndex(b, addrs, size);
            k < |addrs| ==> IsFree(Headers(b, addrs), addrs[k]) && Decide(HeaderAt(b, addrs[k]).size, size) != Skip
  {
    hide Decide;
  }

  ghost predicate NoneFits(b: Bytes, addrs: seq<nat>, size: nat) {
    forall i :: 0 <= i < |addrs| && IsFree(Headers(b, addrs), addrs[i]) ==> HeaderAt(b, addrs[i]).size <= size + HEADER_SIZE
  }

  lemma NoneLargeEnough(b: Bytes, addrs: seq<nat>, size: nat)
    requires size < U32 - HEADER_SIZE * 2 && FitIndex(b, addrs, size) == |addrs|
    ensures NoneFits(b, addrs, size)
  {
    hide Decide, HeaderAt;
    forall i | 0 <= i < |addrs| && IsFree(Headers(b, addrs), addrs[i])
      ensures HeaderAt(b, addrs[i]).size <= size + HEADER_SIZE
    {
      DecideIsExact(HeaderAt(b, addrs[i]).size, size);
    }
  }

  /** Block k is in use and holds `size` bytes, and no payload byte of a block in use has changed. */
  ghost predicate Handed(b: Bytes, addrs: seq<nat>, k: nat, size: nat, b': Bytes, addrs': seq<nat>) {
    && k < |addrs| && IsFree(Headers(b, addrs), addrs[k]) && addrs[k] in addrs'
    && HeaderAt(b', addrs[k]).kind.UsedBlock? && HeaderAt(b', addrs[k]).size >= size + HEADER_SIZE
    && forall j, x :: 0 <= j < |addrs| && InPayload(b, addrs, j, x) ==> b'(x) == b(x)
  }

  ghost function NewChain(b: Bytes, addrs: seq<nat>, k: nat, size: nat): seq<nat>
    requires k < |addrs|
  {
    GrantedAddrs(Headers(b, addrs), addrs, k, size)
  }

  /** Everything about a call of malloc, in terms of the block it takes. */
  lemma MallocOutcome(b: Bytes, addrs: seq<nat>, base: nat, end: nat, size: nat)
    requires TiledBytes(b, addrs, base, end) && 0 < size < U32
    ensures var k := FitIndex(b, addrs, size);
            && (k < |addrs| ==> addrs[k] < U32)
            && (k == |addrs| && size < U32 - HEADER_SIZE * 2 ==> NoneFits(b, addrs, size))
            && (k < |addrs| && size < U32 - HEADER_SIZE * 2 ==>
                  var b', addrs' := MallocStores(b, addrs[k], size), NewChain(b, addrs, k, size);
                  TiledBytes(b', addrs', base, end) && Handed(b, addrs, k, size, b', addrs'))
  {
    var k := FitIndex(b, addrs, size);
    hide Tiled, FitIndex, MallocStores, HeaderAt, Decide, Handed, NoneFits, GrantedAddrs, Headers;
    if k == |addrs| {
      if size < U32 - HEADER_SIZE * 2 {
        NoneLargeEnough(b, addrs, size);
      }
    } else {
      BlockBounds(b, addrs, base, end, k);
      if size < U32 - HEADER_SIZE * 2 {
        FitFits(b, addrs, size);
        Granted(b, addrs, base, end, k, size);
      }
    }
  }

  /** What a caller of malloc may rely on. */
  lemma Granted(b: Bytes, addrs: seq<nat>, base: nat, end: nat, k: nat, size: nat)
    requires TiledBytes(b, addrs, base, end) && k < |addrs| && 0 < size < U32 - HEADER_SIZE * 2
    requires IsFree(Headers(b, addrs), addrs[k]) && Decide(HeaderAt(b, addrs[k]).size, size) != Skip
    ensures var b', addrs' := MallocStores(b, addrs[k], size), GrantedAddrs(Headers(b, addrs), addrs, k, size);
            TiledBytes(b', addrs', base, end) && Handed(b, addrs, k, size, b', addrs')
  {
    hide Tiled, MallocStores, HeaderAt, Decide, Grant;
    var h := Headers(b, addrs);
    MallocKeepsTiling(b, addrs, base, end, k, size);
    GrantKeepsTiling(h, addrs, base, end, k, size);
    assert GrantedAddrs(h, addrs, k, size)[k] == addrs[k];
    forall j, x | 0 <= j < |addrs| && InPayload(b, addrs, j, x)
      ensures MallocStores(b, addrs[k], size)(x) == b(x)
    {
      MallocKeepsPayload(b, addrs, base, end, k, size, j, x);
    }
  }
}
