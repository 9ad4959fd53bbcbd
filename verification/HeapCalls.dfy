/** malloc and free on the bytes of the arena: when each keeps it tiled, and runs of them in any order. */
module HeapCalls {
  import opened Common
  import opened Heap
  import opened HeapLinks
  import opened HeapBytes

  // ----- the chain in memory -----

  function Headers(b: Bytes, addrs: seq<nat>): (mem: Memory)
    ensures forall a :: a in addrs <==> a in mem
    ensures forall a :: a in addrs ==> mem[a] == HeaderAt(b, a)
  {
    map a | a in addrs :: HeaderAt(b, a)
  }

  predicate Arena(base: nat, end: nat) { NULL < base < end <= U32 && end <= base + HEAP_SIZE }

  /** The headers found in memory along this chain tile the arena. */
  ghost predicate TiledBytes(b: Bytes, addrs: seq<nat>, base: nat, end: nat) {
    Arena(base, end) && Tiled(Headers(b, addrs), addrs, base, end)
  }

  ghost predicate Tileable(b: Bytes, base: nat, end: nat) {
    exists addrs :: TiledBytes(b, addrs, base, end)
  }

  lemma BlockBounds(b: Bytes, addrs: seq<nat>, base: nat, end: nat, i: nat)
    requires TiledBytes(b, addrs, base, end) && i < |addrs|
    ensures var h := HeaderAt(b, addrs[i]);
            base <= addrs[i] && HEADER_SIZE < h.size && addrs[i] + h.size <= end && h.size <= HEAP_SIZE
  {
    hide HeaderAt;
    var mem := Headers(b, addrs);
    BelowEnd(mem, addrs, base, end, i);
    if i > 0 {
      ChainGrows(mem, addrs, base, end, 0, i);
    }
    assert BlockOk(mem, addrs, i, end);
  }

  lemma BlocksApart(b: Bytes, addrs: seq<nat>, base: nat, end: nat, i: nat, j: nat)
    requires TiledBytes(b, addrs, base, end) && i < j < |addrs|
    ensures addrs[i] + HeaderAt(b, addrs[i]).size <= addrs[j] && addrs[i] + HEADER_SIZE < addrs[j]
  {
    ChainGrows(Headers(b, addrs), addrs, base, end, i, j);
    BlockBounds(b, addrs, base, end, i);
  }

  lemma ChainSeparated(b: Bytes, addrs: seq<nat>, base: nat, end: nat)
    requires TiledBytes(b, addrs, base, end)
    ensures forall x, y :: x in addrs && y in addrs && x != y ==> Apart(x, y)
  {
    hide HeaderAt, Tiled;
    forall x, y | x in addrs && y in addrs && x != y
      ensures Apart(x, y)
    {
      var i :| 0 <= i < |addrs| && addrs[i] == x;
      var j :| 0 <= j < |addrs| && addrs[j] == y;
      if i < j {
        BlocksApart(b, addrs, base, end, i, j);
      } else {
        BlocksApart(b, addrs, base, end, j, i);
      }
    }
  }

  lemma OwnHeaderMatches(b: Bytes, a: nat)
    ensures Matches(b, a, HeaderAt(b, a))
  {
    hide Load;
    assert Load(b, a + 4) % U32 == Load(b, a + 4);
  }

  lemma ChainRepresented(b: Bytes, addrs: seq<nat>, base: nat, end: nat)
    requires TiledBytes(b, addrs, base, end)
    ensures Represents(b, Headers(b, addrs))
  {
    hide Tiled, HeaderAt, Matches;
    ChainSeparated(b, addrs, base, end);
    forall a | a in addrs
      ensures Matches(b, a, Headers(b, addrs)[a])
    {
      OwnHeaderMatches(b, a);
    }
  }

  lemma TiledIgnoresLinks(mem: Memory, mem': Memory, addrs: seq<nat>, base: nat, end: nat)
    requires Tiled(mem, addrs, base, end) && forall a :: a in addrs ==> SameBlock(mem, mem', a)
    ensures Tiled(mem', addrs, base, end)
  {
    forall i | 0 <= i < |addrs|
      ensures addrs[i] in mem' && BlockOk(mem', addrs, i, end)
    {
      assert BlockOk(mem, addrs, i, end) && SameBlock(mem, mem', addrs[i]);
    }
  }

  /** Headers that agree with the bytes, sizes modulo 2^32 and back links aside. */
  predicate Shows(b: Bytes, mem: Memory, a: nat) {
    a in mem && var h := HeaderAt(b, a); h.kind == mem[a].kind && h.next == mem[a].next && h.size == mem[a].size % U32
  }

  lemma ShownChainIsTiled(b: Bytes, mem: Memory, addrs: seq<nat>, base: nat, end: nat)
    requires Arena(base, end) && Tiled(mem, addrs, base, end) && forall a :: a in addrs ==> Shows(b, mem, a)
    ensures TiledBytes(b, addrs, base, end)
  {
    hide HeaderAt;
    forall a | a in addrs
      ensures SameBlock(mem, Headers(b, addrs), a)
    {
      assert Shows(b, mem, a);
      var i :| 0 <= i < |addrs| && addrs[i] == a;
      BelowEnd(mem, addrs, base, end, i);
      assert addrs[i] + mem[a].size <= end;
      if i > 0 {
        ChainGrows(mem, addrs, base, end, 0, i);
      }
    }
    TiledIgnoresLinks(mem, Headers(b, addrs), addrs, base, end);
  }

  // ----- what free does, in terms of headers -----

  /** The test of line 25, made after the block was marked free. */
  predicate MergesLeft(b: Bytes, a: nat) {
    Load(b, a + 12) != NULL && Load(Store(b, a, HEAP_BLOCK_FREE), Load(b, a + 12)) == HEAP_BLOCK_FREE
  }

  /** A back link that free follows leads to a header of the chain, or to a place that no header overlaps. */
  ghost predicate ClearLink(b: Bytes, addrs: seq<nat>, i: nat)
    requires i < |addrs|
  {
    var p := Load(b, addrs[i] + 12);
    MergesLeft(b, addrs[i]) ==> p in addrs || forall a :: a in addrs ==> Apart(a, p)
  }

  /** A clear link that leads into the chain leads to the predecessor. */
  ghost predicate SafeFree(b: Bytes, addrs: seq<nat>, i: nat)
    requires i < |addrs|
  {
    && ClearLink(b, addrs, i)
    && (MergesLeft(b, addrs[i]) && Load(b, addrs[i] + 12) in addrs ==> i > 0 && Load(b, addrs[i] + 12) == addrs[i - 1])
  }

  /** The headers that free looks at: those of the chain, and the one the back link leads to if free follows it. */
  ghost function Seen(b: Bytes, addrs: seq<nat>, i: nat): (mem: Memory)
    requires i < |addrs|
    ensures addrs[i] in mem
  {
    var a, p := addrs[i], Load(b, addrs[i] + 12);
    var chain := Headers(b, addrs);
    if MergesLeft(b, a) then chain[p := HeaderAt(b, p)] else chain[a := chain[a].(prev := NULL)]
  }

  ghost predicate Freeable(b: Bytes, addrs: seq<nat>, base: nat, end: nat, i: nat) {
    TiledBytes(b, addrs, base, end) && i < |addrs| && Load(b, addrs[i]) == HEAP_BLOCK_USED && ClearLink(b, addrs, i)
  }

  lemma SeenIsTiled(b: Bytes, addrs: seq<nat>, base: nat, end: nat, i: nat)
    requires Freeable(b, addrs, base, end, i)
    ensures var m, a := Seen(b, addrs, i), addrs[i];
            && Tiled(m, addrs, base, end) && IsUsed(m, a) && LinksInside(m, a)
            && (MergesPrev(m, a) <==> MergesLeft(b, a)) && (MergesLeft(b, a) ==> m[a].prev == Load(b, a + 12))
            && forall x :: x in addrs ==> SameBlock(Headers(b, addrs), m, x)
  {
    hide Tiled, Load, Store, Matches;
    var m, a, p := Seen(b, addrs, i), addrs[i], Load(b, addrs[i] + 12);
    TiledIgnoresLinks(Headers(b, addrs), m, addrs, base, end);
    NeighboursOk(m, addrs, base, end, i);
    if MergesLeft(b, a) {
      MarkedFree(b, addrs, base, end, i);
    }
  }

  /** Marking the block changes what is read at its own address alone. */
  lemma MarkedFree(b: Bytes, addrs: seq<nat>, base: nat, end: nat, i: nat)
    requires Freeable(b, addrs, base, end, i) && MergesLeft(b, addrs[i])
    ensures var p := Load(b, addrs[i] + 12); p == addrs[i] || Load(b, p) == HEAP_BLOCK_FREE
  {
    hide Load, Store;
    var a, p := addrs[i], Load(b, addrs[i] + 12);
    ChainSeparated(b, addrs, base, end);
    if p != a {
      assert Apart(a, p);
      LoadOther(b, a, HEAP_BLOCK_FREE, p);
    }
  }

  lemma SeenRepresented(b: Bytes, addrs: seq<nat>, base: nat, end: nat, i: nat)
    requires Freeable(b, addrs, base, end, i) && MergesLeft(b, addrs[i])
    ensures Represents(b, Seen(b, addrs, i))
  {
    hide Load, Store, Tiled, HeaderAt, Matches;
    var p := Load(b, addrs[i] + 12);
    ChainSeparated(b, addrs, base, end);
    forall a | a in Seen(b, addrs, i)
      ensures Matches(b, a, Seen(b, addrs, i)[a])
    {
      OwnHeaderMatches(b, a);
    }
  }

  /** With nothing to merge on the left the back link does not matter. */
  lemma UnlinkedRelease(mem: Memory, a: nat)
    requires IsUsed(mem, a) && (mem[a].next != NULL ==> mem[a].next in mem)
    ensures var m := mem[a := mem[a].(prev := NULL)];
            var m' := MergeWithNext(Marked(mem, a), a);
            LinksInside(m, a) && Release(m, a).Keys == m'.Keys == mem.Keys && m'[a].prev == mem[a].prev &&
            (forall x :: x in mem ==> SameBlock(Release(m, a), m', x)) &&
            forall x :: x in mem && x != a ==> m'[x].prev == Release(m, a)[x].prev
  {
  }

  /** The headers in memory after free are those that Release gives. */
  ghost predicate ShowsRelease(b: Bytes, addrs: seq<nat>, i: nat)
    requires i < |addrs|
  {
    var m, a := Seen(b, addrs, i), addrs[i];
    LinksInside(m, a) && Release(m, a).Keys == m.Keys &&
    var b', r := FreeStores(b, a), Release(m, a);
    && (forall x :: x in m ==> Shows(b', r, x))
    && (forall x :: x in m && (x != a || MergesLeft(b, a)) ==> Load(b', x + 12) == r[x].prev)
    && (!MergesLeft(b, a) ==> Load(b', a + 12) == Load(b, a + 12))
    && OnlyHeadersChanged(b, b', m.Keys)
  }

  lemma FreeShows(b: Bytes, addrs: seq<nat>, base: nat, end: nat, i: nat)
    requires Freeable(b, addrs, base, end, i)
    ensures ShowsRelease(b, addrs, i)
  {
    SeenIsTiled(b, addrs, base, end, i);
    hide Tiled, TiledBytes, Load, Store, Release, FreeStores, OnlyHeadersChanged, Seen, MergesLeft, Shows, ShowsRelease, ClearLink;
    if MergesLeft(b, addrs[i]) {
      FreeShowsMerged(b, addrs, base, end, i);
    } else {
      FreeShowsUnmerged(b, addrs, base, end, i);
    }
  }

  lemma FreeShowsMerged(b: Bytes, addrs: seq<nat>, base: nat, end: nat, i: nat)
    requires Freeable(b, addrs, base, end, i) && MergesLeft(b, addrs[i]) && LinksInside(Seen(b, addrs, i), addrs[i])
    ensures ShowsRelease(b, addrs, i)
  {
    hide Tiled, Load, Store, Release, FreeStores, OnlyHeadersChanged;
    SeenRepresented(b, addrs, base, end, i);
    FreeRefines(b, Seen(b, addrs, i), addrs[i]);
    var b', r := FreeStores(b, addrs[i]), Release(Seen(b, addrs, i), addrs[i]);
    forall x | x in r
      ensures Shows(b', r, x) && Load(b', x + 12) == r[x].prev
    {
      assert Matches(b', x, r[x]);
    }
  }

  lemma FreeShowsUnmerged(b: Bytes, addrs: seq<nat>, base: nat, end: nat, i: nat)
    requires Freeable(b, addrs, base, end, i) && !MergesLeft(b, addrs[i]) && LinksInside(Seen(b, addrs, i), addrs[i])
    ensures ShowsRelease(b, addrs, i)
  {
    hide Tiled, Load, Store, Release, MergeNextStores, MergeWithNext, OnlyHeadersChanged, Represents;
    var h, a := Headers(b, addrs), addrs[i];
    ChainRepresented(b, addrs, base, end);
    NeighboursOk(h, addrs, base, end, i);
    ReadHeader(b, h, a);
    var b1, m1 := Store(b, a, HEAP_BLOCK_FREE), Marked(h, a);
    StoreField(b, h, a, m1[a], 0, HEAP_BLOCK_FREE);
    assert m1.Keys == h.Keys == Seen(b, addrs, i).Keys;
    MergeNextRefines(b1, m1, a);
    UnlinkedRelease(h, a);
    UnfollowedStores(b, a);
    OnlyHeadersTransitive(b, b1, FreeStores(b, a), h.Keys);
    var b', m' := FreeStores(b, a), MergeWithNext(m1, a);
    forall x | x in m'
      ensures Shows(b', m', x) && Load(b', x + 12) == m'[x].prev
    {
      RepresentedShows(b', m', x);
    }
  }

  lemma RepresentedShows(b: Bytes, mem: Memory, x: nat)
    requires Represents(b, mem) && x in mem
    ensures Shows(b, mem, x) && Load(b, x + 12) == mem[x].prev
  {
    hide Load;
    assert Matches(b, x, mem[x]);
  }

  lemma UnfollowedStores(b: Bytes, a: nat)
    requires Load(b, a) == HEAP_BLOCK_USED && !MergesLeft(b, a)
    ensures FreeStores(b, a) == MergeNextStores(Store(b, a, HEAP_BLOCK_FREE), a)
  {
    hide Load, Store, MergeNextStores;
    LoadOther(b, a, HEAP_BLOCK_FREE, a + 12);
  }

  // ----- free keeps the arena tiled exactly when it is safe -----

  ghost function FreedChain(b: Bytes, addrs: seq<nat>, i: nat): seq<nat>
    requires i < |addrs|
  {
    ReleasedChain(Seen(b, addrs, i), addrs, i)
  }

  lemma FreedChainInside(b: Bytes, addrs: seq<nat>, i: nat)
    requires i < |addrs|
    ensures forall x :: x in FreedChain(b, addrs, i) ==> x in addrs
  {
  }

  lemma SafeFreeLinks(b: Bytes, addrs: seq<nat>, base: nat, end: nat, i: nat)
    requires Freeable(b, addrs, base, end, i)
    ensures SafeFree(b, addrs, i) <==> SafeLink(Seen(b, addrs, i), addrs, i)
    ensures MergesDead(Seen(b, addrs, i), addrs, i) <==> MergesLeft(b, addrs[i]) && Load(b, addrs[i] + 12) !in addrs
  {
    hide Tiled, Load, MergesLeft, Seen;
    SeenIsTiled(b, addrs, base, end, i);
  }

  /** A safe free keeps the arena tiled, and all other used blocks. */
  lemma SafeFreeKeepsTiling(b: Bytes, addrs: seq<nat>, base: nat, end: nat, i: nat)
    requires Freeable(b, addrs, base, end, i) && SafeFree(b, addrs, i)
    ensures var b', addrs' := FreeStores(b, addrs[i]), FreedChain(b, addrs, i);
            && TiledBytes(b', addrs', base, end)
            && forall j :: 0 <= j < |addrs| && j != i && HeaderAt(b, addrs[j]).kind.UsedBlock? ==>
                 addrs[j] in addrs' && HeaderAt(b', addrs[j]).kind.UsedBlock? && HeaderAt(b', addrs[j]).size == HeaderAt(b, addrs[j]).size
  {
    hide Tiled, Release, ReleasedChain, HeaderAt, Load, FreeStores, Seen, SafeLink;
    SafeFreeLinks(b, addrs, base, end, i);
    SeenIsTiled(b, addrs, base, end, i);
    FreeShows(b, addrs, base, end, i);
    FreedChainInside(b, addrs, i);
    var m, b', addrs' := Seen(b, addrs, i), FreeStores(b, addrs[i]), FreedChain(b, addrs, i);
    var r := Release(m, addrs[i]);
    FreeKeepsTiling(m, addrs, base, end, i);
    ShownChainIsTiled(b', r, addrs', base, end);
    forall j | 0 <= j < |addrs| && j != i && HeaderAt(b, addrs[j]).kind.UsedBlock?
      ensures addrs[j] in addrs' && HeaderAt(b', addrs[j]).kind.UsedBlock? && HeaderAt(b', addrs[j]).size == HeaderAt(b, addrs[j]).size
    {
      assert SameBlock(Headers(b, addrs), m, addrs[j]) && Shows(b', r, addrs[j]);
      BlockBounds(b, addrs, base, end, j);
    }
  }

  /** Any other clear link spoils it. */
  lemma UnsafeFreeBreaksTiling(b: Bytes, addrs: seq<nat>, base: nat, end: nat, i: nat)
    requires Freeable(b, addrs, base, end, i) && !SafeFree(b, addrs, i)
    ensures !Tileable(FreeStores(b, addrs[i]), base, end)
  {
    hide Tiled, Release, HeaderAt, Load, FreeStores, Seen, SafeLink, MergesLeft;
    SafeFreeLinks(b, addrs, base, end, i);
    SeenIsTiled(b, addrs, base, end, i);
    var m, b' := Seen(b, addrs, i), FreeStores(b, addrs[i]);
    var q := UnsafeLinkMisfits(m, addrs, base, end, i);
    forall addrs': seq<nat>
      ensures !TiledBytes(b', addrs', base, end)
    {
      var both := addrs + addrs';
      MisfitShows(b, addrs, base, end, i, q, both);
      var found := Headers(b', both);
      if TiledBytes(b', addrs', base, end) {
        TiledIgnoresLinks(Headers(b', addrs'), found, addrs', base, end);
        MisfitBreaksTiling(m, found, addrs, addrs', base, end, q);
      }
    }
  }

  lemma MisfitShows(b: Bytes, addrs: seq<nat>, base: nat, end: nat, i: nat, q: nat, more: seq<nat>)
    requires Freeable(b, addrs, base, end, i) && addrs <= more && q < |addrs| && MergesLeft(b, addrs[i])
    requires var m := Seen(b, addrs, i);
             LinksInside(m, addrs[i]) && m[addrs[i]].prev == addrs[q] && Misfit(m, Release(m, addrs[i]), addrs, end, q)
    ensures Misfit(Seen(b, addrs, i), Headers(FreeStores(b, addrs[i]), more), addrs, end, q)
  {
    hide Tiled, Release, HeaderAt, Load, FreeStores, Seen, MergesLeft;
    SeenIsTiled(b, addrs, base, end, i);
    FreeShows(b, addrs, base, end, i);
    var m, b' := Seen(b, addrs, i), FreeStores(b, addrs[i]);
    var r, found := Release(m, addrs[i]), Headers(b', more);
    SeenSizes(b, addrs, base, end, i);
    ReleaseSizes(m, addrs[i], HEAP_SIZE);
    forall j | 0 <= j < |addrs|
      ensures addrs[j] in more && Shows(b', r, addrs[j]) && m[addrs[j]].size <= HEAP_SIZE
      ensures r[addrs[j]].size <= 4 * HEAP_SIZE && SameExtent(r, found, addrs[j])
    {
      assert more[j] == addrs[j];
    }
  }

  lemma SeenSizes(b: Bytes, addrs: seq<nat>, base: nat, end: nat, i: nat)
    requires Freeable(b, addrs, base, end, i)
    requires var m := Seen(b, addrs, i); LinksInside(m, addrs[i]) && m[addrs[i]].prev in addrs
    ensures var m := Seen(b, addrs, i);
            && (forall j :: 0 <= j < |addrs| ==> addrs[j] in m && m[addrs[j]].size <= HEAP_SIZE)
            && m[addrs[i]].size <= HEAP_SIZE && m[m[addrs[i]].prev].size <= HEAP_SIZE
            && (m[addrs[i]].next != NULL ==> m[m[addrs[i]].next].size <= HEAP_SIZE)
  {
    SeenIsTiled(b, addrs, base, end, i);
    var m := Seen(b, addrs, i);
    NeighboursOk(m, addrs, base, end, i);
    hide Tiled, HeaderAt, Load, Seen, MergesLeft;
    forall j | 0 <= j < |addrs|
      ensures addrs[j] in m && m[addrs[j]].size <= HEAP_SIZE
    {
      assert SameBlock(Headers(b, addrs), m, addrs[j]);
      BlockBounds(b, addrs, base, end, j);
    }
  }

  /**
   * free of a used block whose back link is clear leaves some chain that tiles the arena exactly when the link,
   * if free follows it into the chain, leads to the predecessor.
   */
  lemma FreeKeepsTilingIff(b: Bytes, addrs: seq<nat>, base: nat, end: nat, i: nat)
    requires Freeable(b, addrs, base, end, i)
    ensures Tileable(FreeStores(b, addrs[i]), base, end) <==> SafeFree(b, addrs, i)
  {
    hide Tiled, FreeStores, FreedChain, SafeFree;
    if SafeFree(b, addrs, i) {
      SafeFreeKeepsTiling(b, addrs, base, end, i);
    } else {
      UnsafeFreeBreaksTiling(b, addrs, base, end, i);
    }
  }

  // ----- when free coalesces -----

  lemma PredecessorMerges(b: Bytes, addrs: seq<nat>, base: nat, end: nat, i: nat)
    requires TiledBytes(b, addrs, base, end) && 0 < i < |addrs|
    requires HeaderAt(b, addrs[i - 1]).kind.FreeBlock? && Load(b, addrs[i] + 12) == addrs[i - 1]
    ensures MergesLeft(b, addrs[i])
  {
    hide Store, Load;
    BlocksApart(b, addrs, base, end, i - 1, i);
    BlockBounds(b, addrs, base, end, i - 1);
    LoadOther(b, addrs[i], HEAP_BLOCK_FREE, addrs[i - 1]);
  }

  /**
   * A safe free leaves no two neighbouring free blocks, if there were none, exactly when its back link names the
   * predecessor if that is free, and is not followed out of the chain if the successor is free.
   */
  lemma FreeCoalescesIff(b: Bytes, addrs: seq<nat>, base: nat, end: nat, i: nat)
    requires Freeable(b, addrs, base, end, i) && SafeFree(b, addrs, i) && NoAdjacentFree(Headers(b, addrs), addrs)
    ensures var b', addrs', p := FreeStores(b, addrs[i]), FreedChain(b, addrs, i), Load(b, addrs[i] + 12);
            var h := Headers(b, addrs);
            NoAdjacentFree(Headers(b', addrs'), addrs')
            <==> (i > 0 && IsFree(h, addrs[i - 1]) ==> p == addrs[i - 1])
                 && (MergesNext(h, addrs, i) ==> !(MergesLeft(b, addrs[i]) && p !in addrs))
  {
    hide Tiled, Release, ReleasedChain, HeaderAt, Load, FreeStores, SafeLink, MergesLeft;
    SafeFreeLinks(b, addrs, base, end, i);
    SeenIsTiled(b, addrs, base, end, i);
    FreeShows(b, addrs, base, end, i);
    FreedChainInside(b, addrs, i);
    if i > 0 && IsFree(Headers(b, addrs), addrs[i - 1]) && Load(b, addrs[i] + 12) == addrs[i - 1] {
      PredecessorMerges(b, addrs, base, end, i);
    }
    SeenLink(b, addrs, base, end, i);
    hide Seen;
    var m, b', addrs' := Seen(b, addrs, i), FreeStores(b, addrs[i]), FreedChain(b, addrs, i);
    SameKindsSameNeighbours(Headers(b, addrs), m, addrs);
    SameKindsSameNeighbours(Release(m, addrs[i]), Headers(b', addrs'), addrs');
    Heap.FreeCoalescesIff(m, addrs, base, end, i);
  }

  lemma SeenLink(b: Bytes, addrs: seq<nat>, base: nat, end: nat, i: nat)
    requires Freeable(b, addrs, base, end, i)
    ensures var m := Seen(b, addrs, i);
            addrs[i] in m && m[addrs[i]].prev == if MergesLeft(b, addrs[i]) then Load(b, addrs[i] + 12) else NULL
    ensures forall j :: 0 <= j < |addrs| ==> addrs[j] > NULL
  {
    hide Tiled, Load, MergesLeft;
    SeenIsTiled(b, addrs, base, end, i);
    forall j | 0 <= j < |addrs|
      ensures addrs[j] > NULL
    {
      BlockBounds(b, addrs, base, end, j);
    }
  }

  lemma SameKindsSameNeighbours(mem: Memory, mem': Memory, addrs: seq<nat>)
    requires forall a :: a in addrs ==> a in mem && a in mem' && mem[a].kind == mem'[a].kind
    ensures NoAdjacentFree(mem, addrs) <==> NoAdjacentFree(mem', addrs)
    ensures forall j :: 0 <= j < |addrs| ==> (IsFree(mem, addrs[j]) <==> IsFree(mem', addrs[j]))
  {
  }

  // ----- what malloc does -----

  lemma CutApart(b: Bytes, addrs: seq<nat>, base: nat, end: nat, k: nat, size: nat)
    requires TiledBytes(b, addrs, base, end) && k < |addrs| && 0 < size < U32 - HEADER_SIZE * 2
    requires Decide(HeaderAt(b, addrs[k]).size, size) == Split
    ensures forall x :: x in addrs ==> Apart(x, addrs[k] + size + HEADER_SIZE)
  {
    hide HeaderAt;
    DecideIsExact(HeaderAt(b, addrs[k]).size, size);
    forall x | x in addrs
      ensures Apart(x, addrs[k] + size + HEADER_SIZE)
    {
      var j :| 0 <= j < |addrs| && addrs[j] == x;
      if j < k {
        BlocksApart(b, addrs, base, end, j, k);
      } else if j > k {
        BlocksApart(b, addrs, base, end, k, j);
      }
    }
  }

  /** The headers in memory after malloc are those that Grant gives, and the arena is still tiled. */
  lemma MallocKeepsTiling(b: Bytes, addrs: seq<nat>, base: nat, end: nat, k: nat, size: nat)
    requires TiledBytes(b, addrs, base, end) && k < |addrs| && 0 < size < U32 - HEADER_SIZE * 2
    requires IsFree(Headers(b, addrs), addrs[k]) && Decide(HeaderAt(b, addrs[k]).size, size) != Skip
    ensures var h := Headers(b, addrs);
            var b', addrs', m := MallocStores(b, addrs[k], size), GrantedAddrs(h, addrs, k, size), Grant(h, addrs[k], size);
            && TiledBytes(b', addrs', base, end) && OnlyHeadersChanged(b, b', m.Keys)
            && forall x :: x in addrs' ==> x in m && HeaderAt(b', x) == m[x]
  {
    hide Tiled, HeaderAt, MallocStores, Grant, GrantedAddrs, Decide, OnlyHeadersChanged, Load;
    var h := Headers(b, addrs);
    ChainRepresented(b, addrs, base, end);
    BlockBounds(b, addrs, base, end, k);
    if Decide(HeaderAt(b, addrs[k]).size, size) == Split {
      CutApart(b, addrs, base, end, k, size);
    }
    MallocRefines(b, h, addrs[k], size);
    GrantKeepsTiling(h, addrs, base, end, k, size);
    var b', addrs', m := MallocStores(b, addrs[k], size), GrantedAddrs(h, addrs, k, size), Grant(h, addrs[k], size);
    TiledSizes(m, addrs', base, end);
    forall x | x in addrs'
      ensures x in m && HeaderAt(b', x) == m[x]
    {
      assert Matches(b', x, m[x]);
    }
    TiledIgnoresLinks(m, Headers(b', addrs'), addrs', base, end);
  }

  lemma TiledSizes(mem: Memory, addrs: seq<nat>, base: nat, end: nat)
    requires Arena(base, end) && Tiled(mem, addrs, base, end)
    ensures forall a :: a in addrs ==> a in mem && mem[a].size < U32
  {
    forall a | a in addrs
      ensures a in mem && mem[a].size < U32
    {
      var i :| 0 <= i < |addrs| && addrs[i] == a;
      BelowEnd(mem, addrs, base, end, i);
      NeighboursOk(mem, addrs, base, end, i);
    }
  }

  // ----- payloads -----

  /** Byte x belongs to the payload of used block j. */
  predicate InPayload(b: Bytes, addrs: seq<nat>, j: nat, x: nat)
    requires j < |addrs|
  {
    var h := HeaderAt(b, addrs[j]);
    h.kind.UsedBlock? && addrs[j] + HEADER_SIZE <= x < addrs[j] + h.size
  }

  lemma PayloadHasNoHeader(b: Bytes, addrs: seq<nat>, base: nat, end: nat, j: nat, x: nat)
    requires TiledBytes(b, addrs, base, end) && j < |addrs| && InPayload(b, addrs, j, x)
    ensures forall a :: a in addrs ==> !InHeader(x, a)
  {
    hide HeaderAt;
    forall a | a in addrs
      ensures !InHeader(x, a)
    {
      var i :| 0 <= i < |addrs| && addrs[i] == a;
      if i < j {
        BlocksApart(b, addrs, base, end, i, j);
      } else if i > j {
        BlocksApart(b, addrs, base, end, j, i);
      }
    }
  }

  /** malloc changes no payload byte of a block in use. */
  lemma MallocKeepsPayload(b: Bytes, addrs: seq<nat>, base: nat, end: nat, k: nat, size: nat, j: nat, x: nat)
    requires TiledBytes(b, addrs, base, end) && k < |addrs| && 0 < size < U32 - HEADER_SIZE * 2
    requires IsFree(Headers(b, addrs), addrs[k]) && Decide(HeaderAt(b, addrs[k]).size, size) != Skip
    requires j < |addrs| && InPayload(b, addrs, j, x)
    ensures MallocStores(b, addrs[k], size)(x) == b(x)
  {
    hide Tiled, HeaderAt, MallocStores, Decide;
    MallocKeepsTiling(b, addrs, base, end, k, size);
    PayloadHasNoHeader(b, addrs, base, end, j, x);
    DecideIsExact(HeaderAt(b, addrs[k]).size, size);
    if j < k {
      BlocksApart(b, addrs, base, end, j, k);
    } else if j > k {
      BlocksApart(b, addrs, base, end, k, j);
    }
  }

  /** free changes no payload byte either, unless it follows its back link out of the chain, into that payload. */
  lemma FreeKeepsPayload(b: Bytes, addrs: seq<nat>, base: nat, end: nat, i: nat, j: nat, x: nat)
    requires Freeable(b, addrs, base, end, i) && j < |addrs| && InPayload(b, addrs, j, x)
    requires var p := Load(b, addrs[i] + 12); !(MergesLeft(b, addrs[i]) && p !in addrs && InHeader(x, p))
    ensures FreeStores(b, addrs[i])(x) == b(x)
  {
    hide Tiled, HeaderAt, FreeStores, Load, MergesLeft, Release, InPayload;
    FreeShows(b, addrs, base, end, i);
    PayloadHasNoHeader(b, addrs, base, end, j, x);
    assert forall a :: a in Seen(b, addrs, i) ==> !InHeader(x, a);
  }
}
