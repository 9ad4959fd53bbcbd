/** What a back link that free should not follow does to the chain of headers. */
module HeapLinks {
  import opened Heap

  predicate SameExtent(mem: Memory, mem': Memory, a: nat) {
    a in mem && a in mem' && mem'[a].size == mem[a].size && mem'[a].next == mem[a].next
  }

  /** Nothing below block q changed, so every tiling of the new memory agrees with the old chain up to q. */
  lemma {:induction false} SharedPrefix(mem: Memory, mem': Memory, addrs: seq<nat>, addrs': seq<nat>, base: nat, end: nat, q: nat)
    requires Tiled(mem, addrs, base, end) && Tiled(mem', addrs', base, end) && q < |addrs|
    requires forall j :: 0 <= j < q ==> SameExtent(mem, mem', addrs[j])
    ensures q < |addrs'| && addrs'[..q + 1] == addrs[..q + 1]
  {
    if q > 0 {
      SharedPrefix(mem, mem', addrs, addrs', base, end, q - 1);
      assert addrs'[q - 1] == addrs'[..q][q - 1] == addrs[q - 1];
      assert SameExtent(mem, mem', addrs[q - 1]);
      NeighboursOk(mem, addrs, base, end, q - 1);
      NeighboursOk(mem', addrs', base, end, q - 1);
      assert addrs'[..q + 1] == addrs'[..q] + [addrs'[q]];
      assert addrs[..q + 1] == addrs[..q] + [addrs[q]];
    }
  }

  /** Block q no longer ends where its link leads, while all before it are as they were. */
  ghost predicate Misfit(mem: Memory, mem': Memory, addrs: seq<nat>, end: nat, q: nat) {
    && q < |addrs| && (forall j :: 0 <= j < q ==> SameExtent(mem, mem', addrs[j]))
    && addrs[q] in mem'
    && var h := mem'[addrs[q]];
       if h.next == NULL then addrs[q] + h.size != end else addrs[q] + h.size != h.next
  }

  /** Then no chain from the base tiles the arena. */
  lemma MisfitBreaksTiling(mem: Memory, mem': Memory, addrs: seq<nat>, addrs': seq<nat>, base: nat, end: nat, q: nat)
    requires Tiled(mem, addrs, base, end) && Misfit(mem, mem', addrs, end, q)
    ensures !Tiled(mem', addrs', base, end)
  {
    hide Tiled;
    if Tiled(mem', addrs', base, end) {
      SharedPrefix(mem, mem', addrs, addrs', base, end, q);
      assert addrs'[q] == addrs'[..q + 1][q] == addrs[q];
      NeighboursOk(mem', addrs', base, end, q);
      assert false;
    }
  }

  /** A back link that names a free block further back makes that block overlap what lies between. */
  lemma StaleLinkMisfits(mem: Memory, addrs: seq<nat>, base: nat, end: nat, i: nat, q: nat)
    requires Tiled(mem, addrs, base, end) && i < |addrs| && IsUsed(mem, addrs[i]) && LinksInside(mem, addrs[i])
    requires MergesPrev(mem, addrs[i]) && q + 1 < i && mem[addrs[i]].prev == addrs[q]
    ensures Misfit(mem, Release(mem, addrs[i]), addrs, end, q)
  {
    hide Release, Tiled;
    var mem' := Release(mem, addrs[i]);
    TiledIncreasing(mem, addrs, base, end);
    NeighboursOk(mem, addrs, base, end, i);
    NeighboursOk(mem, addrs, base, end, q);
    ReleaseLocally(mem, addrs[i]);
    ChainGrows(mem, addrs, base, end, q + 1, i);
    forall j | 0 <= j < q
      ensures SameExtent(mem, mem', addrs[j])
    {
      NeighboursOk(mem, addrs, base, end, j);
    }
  }

  /** free with a back link to the freed block itself, or to a later one. */
  lemma ReleaseForward(mem: Memory, a: nat)
    requires a > NULL && IsUsed(mem, a) && LinksInside(mem, a) && mem[a].next != a
    requires MergesPrev(mem, a) && (mem[a].prev == a || mem[a].prev > a)
    requires mem[a].prev != a ==> mem[a].next != NULL
    ensures var mem', h := Release(mem, a), mem[a];
            var p, n := h.prev, h.next;
            && (forall x :: x in mem && x != a && x != p && x != n ==> x in mem' && mem'[x] == mem[x])
            && p in mem'
            && (p != a ==> SameExtent(mem, mem', a))
            && (p != a && p != n ==> SameExtent(mem, mem', n))
            && mem'[p].size >= mem[p].size + h.size
            && (p == a ==> SameLink(mem, mem'[a], h, 2 * h.size))
            && (p != a ==> mem'[p].next == n || (n != p && IsFree(mem, n) && mem'[p].next == mem[n].next))
  {
  }

  /** A header that took over, or not, the free block behind `h`; its size started from `size`. */
  predicate SameLink(mem: Memory, h': Header, h: Header, size: nat) {
    || (h'.next == h.next && h'.size == size)
    || (h.next != NULL && h.next in mem && h'.next == mem[h.next].next && h'.size == size + mem[h.next].size)
  }

  /** A back link to the freed block itself doubles its size. */
  lemma SelfLinkMisfits(mem: Memory, addrs: seq<nat>, base: nat, end: nat, i: nat)
    requires Tiled(mem, addrs, base, end) && i < |addrs| && IsUsed(mem, addrs[i]) && LinksInside(mem, addrs[i])
    requires mem[addrs[i]].prev == addrs[i]
    ensures Misfit(mem, Release(mem, addrs[i]), addrs, end, i)
  {
    hide Release, Tiled;
    var mem' := Release(mem, addrs[i]);
    TiledIncreasing(mem, addrs, base, end);
    NeighboursOk(mem, addrs, base, end, i);
    ReleaseForward(mem, addrs[i]);
    forall j | 0 <= j < i
      ensures SameExtent(mem, mem', addrs[j])
    {
      NeighboursOk(mem, addrs, base, end, j);
    }
  }

  /** A back link to a later free block makes that block point backwards. */
  lemma ForwardLinkMisfits(mem: Memory, addrs: seq<nat>, base: nat, end: nat, i: nat, q: nat)
    requires Tiled(mem, addrs, base, end) && i < q < |addrs| && IsUsed(mem, addrs[i]) && LinksInside(mem, addrs[i])
    requires mem[addrs[i]].prev == addrs[q] && MergesPrev(mem, addrs[i])
    ensures Misfit(mem, Release(mem, addrs[i]), addrs, end, q)
  {
    hide Release, Tiled;
    var mem' := Release(mem, addrs[i]);
    TiledIncreasing(mem, addrs, base, end);
    NeighboursOk(mem, addrs, base, end, i);
    ReleaseForward(mem, addrs[i]);
    forall j | 0 <= j < q
      ensures SameExtent(mem, mem', addrs[j])
    {
      NeighboursOk(mem, addrs, base, end, j);
    }
    NeighboursOk(mem, addrs, base, end, q);
    assert NULL < mem'[addrs[q]].next <= addrs[q];
  }

  /** Every unsafe link spoils the chain somewhere. */
  lemma UnsafeLinkMisfits(mem: Memory, addrs: seq<nat>, base: nat, end: nat, i: nat) returns (q: nat)
    requires Tiled(mem, addrs, base, end) && i < |addrs| && IsUsed(mem, addrs[i]) && LinksInside(mem, addrs[i])
    requires !SafeLink(mem, addrs, i)
    ensures Misfit(mem, Release(mem, addrs[i]), addrs, end, q)
    ensures mem[addrs[i]].prev == addrs[q]
  {
    hide Release, Tiled;
    q :| 0 <= q < |addrs| && addrs[q] == mem[addrs[i]].prev;
    if q < i {
      StaleLinkMisfits(mem, addrs, base, end, i, q);
    } else if q == i {
      SelfLinkMisfits(mem, addrs, base, end, i);
    } else {
      ForwardLinkMisfits(mem, addrs, base, end, i, q);
    }
  }

  lemma MergePrevSizes(mem: Memory, a: nat, bound: nat)
    requires LinksInside(mem, a) && mem[a].size <= bound
    requires mem[a].prev != NULL ==> mem[mem[a].prev].size <= bound
    ensures var r := MergeWithPrev(mem, a);
            r.mem.Keys == mem.Keys && r.header in mem && (r.header == a || r.header == mem[a].prev) &&
            r.mem[r.header].next == mem[a].next && r.mem[r.header].size <= 2 * bound &&
            forall x :: x in mem && x != r.header ==> r.mem[x].size == mem[x].size
  {
  }

  lemma MergeNextSizes(mem: Memory, a: nat, bound: nat)
    requires a in mem && (mem[a].next != NULL ==> mem[a].next in mem)
    requires mem[a].size <= bound && (mem[a].next != NULL ==> mem[mem[a].next].size <= bound)
    ensures var r := MergeWithNext(mem, a);
            r.Keys == mem.Keys && r[a].size <= 2 * bound && forall x :: x in mem && x != a ==> r[x] == mem[x]
  {
  }

  /** Sizes in the memory after a free stay within bounds. */
  lemma ReleaseSizes(mem: Memory, a: nat, bound: nat)
    requires LinksInside(mem, a) && mem[a].size <= bound
    requires mem[a].prev != NULL ==> mem[mem[a].prev].size <= bound
    requires mem[a].next != NULL ==> mem[mem[a].next].size <= bound
    ensures Release(mem, a).Keys == mem.Keys
    ensures forall x :: x in mem ==> Release(mem, a)[x].size <= mem[x].size || Release(mem, a)[x].size <= 4 * bound
  {
    hide MergeWithPrev, MergeWithNext;
    if mem[a].kind.UsedBlock? {
      var m := mem[a := mem[a].(kind := FreeBlock)];
      MergePrevSizes(m, a, bound);
      var r := MergeWithPrev(m, a);
      MergeNextSizes(r.mem, r.header, 2 * bound);
    }
  }

  /** The back links that a free leaves behind are old ones, or the freed block's. */
  lemma ReleaseLinks(mem: Memory, a: nat)
    requires LinksInside(mem, a)
    ensures Release(mem, a).Keys == mem.Keys
    ensures forall x :: x in mem ==> Release(mem, a)[x].prev in {mem[x].prev, mem[a].prev}
  {
  }
}
