/** The heap byte by byte: the loads and stores of malloc and free, and the headers they stand for. */
module HeapBytes {
  import opened Common
  import opened Heap

  /** The address space. */
  type Bytes = nat -> Byte

  const HEAP_BLOCK_FREE: nat := 0xABAB_ABAB
  const HEAP_BLOCK_USED: nat := 0xCDCD_CDCD

  // ----- 32-bit loads and stores, lowest byte first -----

  function ByteOf(v: nat): Byte { (v % 256) as Byte }

  function Store(b: Bytes, a: nat, v: nat): Bytes
    requires v < U32
  {
    (x: nat) =>
      if x == a then ByteOf(v)
      else if x == a + 1 then ByteOf(v / 256)
      else if x == a + 2 then ByteOf(v / 256 / 256)
      else if x == a + 3 then ByteOf(v / 256 / 256 / 256)
      else b(x)
  }

  function Load(b: Bytes, a: nat): (v: nat)
    ensures v < U32
  {
    b(a) as nat + 256 * (b(a + 1) as nat) + 0x1_0000 * (b(a + 2) as nat) + 0x100_0000 * (b(a + 3) as nat)
  }

  lemma LoadStored(b: Bytes, a: nat, v: nat)
    requires v < U32
    ensures Load(Store(b, a, v), a) == v
  {
    var v1, v2, v3 := v / 256, v / 256 / 256, v / 256 / 256 / 256;
    assert v == 256 * v1 + v % 256 && v1 < 0x100_0000;
    assert v1 == 256 * v2 + v1 % 256 && v2 < 0x1_0000;
    assert v2 == 256 * v3 + v2 % 256 && v3 < 256;
    assert Store(b, a, v)(a) == ByteOf(v) && Store(b, a, v)(a + 1) == ByteOf(v1);
    assert Store(b, a, v)(a + 2) == ByteOf(v2) && Store(b, a, v)(a + 3) == ByteOf(v3);
    assert ByteOf(v) as nat == v % 256 && ByteOf(v1) as nat == v1 % 256;
    assert ByteOf(v2) as nat == v2 % 256 && ByteOf(v3) as nat == v3;
  }

  predicate Misses(a: nat, c: nat) { a + 4 <= c || c + 4 <= a }

  lemma LoadOther(b: Bytes, a: nat, v: nat, c: nat)
    requires v < U32 && Misses(a, c)
    ensures Load(Store(b, a, v), c) == Load(b, c)
  {
  }

  lemma ByteOther(b: Bytes, a: nat, v: nat, x: nat)
    requires v < U32 && !(a <= x < a + 4)
    ensures Store(b, a, v)(x) == b(x)
  {
  }

  // ----- headers in memory -----

  function KindOf(word: nat): Kind {
    if word == HEAP_BLOCK_FREE then FreeBlock else if word == HEAP_BLOCK_USED then UsedBlock else NoBlock
  }

  function HeaderAt(b: Bytes, a: nat): Header {
    Header(KindOf(Load(b, a)), Load(b, a + 4), Load(b, a + 8), Load(b, a + 12))
  }

  /** Sizes are kept modulo 2^32. */
  predicate Matches(b: Bytes, a: nat, h: Header) {
    HeaderAt(b, a) == h.(size := h.size % U32)
  }

  predicate Apart(x: nat, y: nat) { x + HEADER_SIZE <= y || y + HEADER_SIZE <= x }

  ghost predicate Separated(mem: Memory) {
    forall x, y :: x in mem && y in mem && x != y ==> Apart(x, y)
  }

  /** The bytes hold these headers, and no two of the headers overlap. */
  ghost predicate Represents(b: Bytes, mem: Memory) {
    Separated(mem) && forall a :: a in mem ==> Matches(b, a, mem[a])
  }

  // ----- malloc -----

  /** The stores of malloc into the block it found, for every 32-bit size, in the source's order. */
  function MallocStores(b: Bytes, a: nat, size: nat): Bytes
    requires size < U32
  {
    var have := Load(b, a + 4);
    if have > Wrap(size + HEADER_SIZE) && have <= Wrap(size + HEADER_SIZE * 2) then Store(b, a, HEAP_BLOCK_USED)
    else
      var next := Wrap(a + size + HEADER_SIZE);
      var b1 := Store(b, next + 12, Wrap(a));
      var b2 := Store(b1, next + 8, Load(b1, a + 8));
      var b3 := Store(b2, next, HEAP_BLOCK_FREE);
      var b4 := Store(b3, next + 4, (Load(b3, a + 4) + U32 - Wrap(size + HEADER_SIZE)) % U32);
      var b5 := Store(b4, a + 8, next);
      var b6 := Store(b5, a + 4, Wrap(size + HEADER_SIZE));
      Store(b6, a, HEAP_BLOCK_USED)
  }

  /** The stores of mini_crt_heap_init. */
  function InitStores(b: Bytes, base: nat): Bytes {
    Store(Store(Store(Store(b, base + 4, HEAP_SIZE), base, HEAP_BLOCK_FREE), base + 8, NULL), base + 12, NULL)
  }

  // ----- free -----

  datatype MergedBytes = MergedBytes(b: Bytes, header: nat)

  function MergePrevStores(b: Bytes, a: nat): MergedBytes {
    var p := Load(b, a + 12);
    if p != NULL && Load(b, p) == HEAP_BLOCK_FREE then
      var b1 := Store(b, p + 8, Load(b, a + 8));
      var n := Load(b1, a + 8);
      var b2 := if n != NULL then Store(b1, n + 12, Load(b1, a + 12)) else b1;
      var q := Load(b2, a + 12);
      var b3 := Store(b2, q + 4, Wrap(Load(b2, q + 4) + Load(b2, a + 4)));
      MergedBytes(b3, Load(b3, a + 12))
    else MergedBytes(b, a)
  }

  function MergeNextStores(b: Bytes, a: nat): Bytes {
    var n := Load(b, a + 8);
    if n != NULL && Load(b, n) == HEAP_BLOCK_FREE then
      var b1 := Store(b, a + 4, Wrap(Load(b, a + 4) + Load(b, n + 4)));
      Store(b1, a + 8, Load(b1, Load(b1, a + 8) + 8))
    else b
  }

  /** free on the header at `a`. */
  function FreeStores(b: Bytes, a: nat): Bytes {
    if Load(b, a) != HEAP_BLOCK_USED then b
    else
      var m := MergePrevStores(Store(b, a, HEAP_BLOCK_FREE), a);
      MergeNextStores(m.b, m.header)
  }

  // ----- one store into one field -----

  /** Header h' is h after storing v at offset o. */
  predicate FieldStored(h: Header, h': Header, o: nat, v: nat) {
    match o
    case 0 => h' == h.(kind := KindOf(v))
    case 4 => h' == h.(size := h'.size) && h'.size % U32 == v
    case 8 => h' == h.(next := v)
    case 12 => h' == h.(prev := v)
    case _ => false
  }

  lemma StoreInHeader(b: Bytes, a: nat, h: Header, h': Header, o: nat, v: nat)
    requires v < U32 && Matches(b, a, h) && FieldStored(h, h', o, v)
    ensures Matches(Store(b, a + o, v), a, h')
  {
    hide Store, Load;
    LoadStored(b, a + o, v);
    if o != 0 { LoadOther(b, a + o, v, a); }
    if o != 4 { LoadOther(b, a + o, v, a + 4); }
    if o != 8 { LoadOther(b, a + o, v, a + 8); }
    if o != 12 { LoadOther(b, a + o, v, a + 12); }
  }

  lemma StoreElsewhere(b: Bytes, a: nat, o: nat, v: nat, c: nat)
    requires v < U32 && o <= 12 && Apart(a, c)
    ensures HeaderAt(Store(b, a + o, v), c) == HeaderAt(b, c)
  {
    hide Store, Load;
    LoadOther(b, a + o, v, c);
    LoadOther(b, a + o, v, c + 4);
    LoadOther(b, a + o, v, c + 8);
    LoadOther(b, a + o, v, c + 12);
  }

  /** A store into a field of one header changes that header, and no byte outside it. */
  lemma StoreField(b: Bytes, mem: Memory, a: nat, h': Header, o: nat, v: nat)
    requires Represents(b, mem) && a in mem && v < U32 && FieldStored(mem[a], h', o, v)
    ensures Represents(Store(b, a + o, v), mem[a := h'])
    ensures OnlyHeadersChanged(b, Store(b, a + o, v), mem.Keys)
  {
    hide Store, Load, HeaderAt;
    StoreInHeader(b, a, mem[a], h', o, v);
    forall c | c in mem && c != a
      ensures Matches(Store(b, a + o, v), c, mem[c])
    {
      StoreElsewhere(b, a, o, v, c);
    }
    forall x: nat | !InHeader(x, a)
      ensures Store(b, a + o, v)(x) == b(x)
    {
      ByteOther(b, a + o, v, x);
    }
  }

  predicate InHeader(x: nat, a: nat) { a <= x < a + HEADER_SIZE }

  ghost predicate OnlyHeadersChanged(b: Bytes, b': Bytes, headers: set<nat>) {
    forall x: nat :: (forall a :: a in headers ==> !InHeader(x, a)) ==> b'(x) == b(x)
  }

  lemma OnlyHeadersTransitive(b0: Bytes, b1: Bytes, b2: Bytes, headers: set<nat>)
    requires OnlyHeadersChanged(b0, b1, headers) && OnlyHeadersChanged(b1, b2, headers)
    ensures OnlyHeadersChanged(b0, b2, headers)
  {
  }

  // ----- the stores of free keep up with the headers -----

  lemma MergePrevRefines(b: Bytes, mem: Memory, a: nat)
    requires Represents(b, mem) && LinksInside(mem, a)
    ensures var m, r := MergePrevStores(b, a), MergeWithPrev(mem, a);
            m.header == r.header && Represents(m.b, r.mem) && r.mem.Keys == mem.Keys &&
            OnlyHeadersChanged(b, m.b, mem.Keys)
  {
    hide Store, Load, Separated, OnlyHeadersChanged, FieldStored;
    var p := mem[a].prev;
    ReadHeader(b, mem, a);
    if p != NULL {
      ReadHeader(b, mem, p);
      if mem[p].kind.FreeBlock? {
        LeftMergeRefines(b, mem, a);
      } else {
        OnlyHeadersSame(b, mem.Keys);
      }
    } else {
      OnlyHeadersSame(b, mem.Keys);
    }
  }

  lemma OnlyHeadersSame(b: Bytes, headers: set<nat>)
    ensures OnlyHeadersChanged(b, b, headers)
  {
  }

  lemma ReadHeader(b: Bytes, mem: Memory, a: nat)
    requires Represents(b, mem) && a in mem
    ensures Load(b, a) == HEAP_BLOCK_FREE <==> mem[a].kind.FreeBlock?
    ensures Load(b, a) == HEAP_BLOCK_USED <==> mem[a].kind.UsedBlock?
    ensures Load(b, a + 4) == mem[a].size % U32 && Load(b, a + 8) == mem[a].next && Load(b, a + 12) == mem[a].prev
  {
    assert Matches(b, a, mem[a]);
  }

  lemma SumModulo(x: nat, y: nat)
    ensures Wrap(x % U32 + y % U32) == (x + y) % U32
  {
  }

  /** The first two stores of the left merge: both neighbours are linked past the freed block. */
  lemma UnlinkRefines(b: Bytes, mem: Memory, a: nat)
    requires Represents(b, mem) && LinksInside(mem, a) && mem[a].prev != NULL
    ensures var p, n := mem[a].prev, mem[a].next;
            var m1, b1 := mem[p := mem[p].(next := n)], Store(b, p + 8, Load(b, a + 8));
            m1[a].next == n && m1[a].prev == p && Load(b, a + 8) == n && Load(b1, a + 8) == n && Load(b1, a + 12) == p &&
            var m2 := if n != NULL then m1[n := m1[n].(prev := p)] else m1;
            var b2 := if n != NULL then Store(b1, n + 12, p) else b1;
            m2.Keys == mem.Keys && m2[a].prev == p && Represents(b2, m2) && OnlyHeadersChanged(b, b2, mem.Keys)
  {
    hide Store, Load, Represents, OnlyHeadersChanged;
    var p, n := mem[a].prev, mem[a].next;
    ReadHeader(b, mem, a);
    var m1 := mem[p := mem[p].(next := n)];
    var b1 := Store(b, p + 8, n);
    StoreField(b, mem, p, m1[p], 8, n);
    ReadHeader(b1, m1, a);
    assert m1.Keys == mem.Keys;
    if n != NULL {
      StoreField(b1, m1, n, m1[n].(prev := p), 12, p);
      OnlyHeadersTransitive(b, b1, Store(b1, n + 12, p), mem.Keys);
    }
  }

  /** The left merge as a chain of stores, once its loads are known. */
  lemma LeftMergeUnfolds(b: Bytes, a: nat, p: nat, n: nat, b2: Bytes)
    requires p != NULL && Load(b, a + 12) == p && Load(b, p) == HEAP_BLOCK_FREE && Load(b, a + 8) == n
    requires Load(Store(b, p + 8, n), a + 8) == n && Load(Store(b, p + 8, n), a + 12) == p
    requires b2 == (if n != NULL then Store(Store(b, p + 8, n), n + 12, p) else Store(b, p + 8, n)) && Load(b2, a + 12) == p
    ensures var b3 := Store(b2, p + 4, Wrap(Load(b2, p + 4) + Load(b2, a + 4)));
            MergePrevStores(b, a) == MergedBytes(b3, Load(b3, a + 12))
  {
    hide Store, Load;
  }

  lemma LeftMergeRefines(b: Bytes, mem: Memory, a: nat)
    requires Represents(b, mem) && LinksInside(mem, a)
    requires mem[a].prev != NULL && mem[mem[a].prev].kind.FreeBlock?
    ensures var m, r := MergePrevStores(b, a), MergeWithPrev(mem, a);
            m.header == r.header && Represents(m.b, r.mem) && r.mem.Keys == mem.Keys &&
            OnlyHeadersChanged(b, m.b, mem.Keys)
  {
    hide Store, Load, Represents, OnlyHeadersChanged;
    var p, n := mem[a].prev, mem[a].next;
    ReadHeader(b, mem, a);
    ReadHeader(b, mem, p);
    UnlinkRefines(b, mem, a);
    var m1 := mem[p := mem[p].(next := n)];
    var b1 := Store(b, p + 8, n);
    var m2 := if n != NULL then m1[n := m1[n].(prev := p)] else m1;
    var b2 := if n != NULL then Store(b1, n + 12, p) else b1;
    ReadHeader(b2, m2, a);
    ReadHeader(b2, m2, p);
    SumModulo(m2[p].size, m2[a].size);
    var sum := Wrap(Load(b2, p + 4) + Load(b2, a + 4));
    var m3 := m2[p := m2[p].(size := m2[p].size + m2[a].size)];
    StoreField(b2, m2, p, m3[p], 4, sum);
    ReadHeader(Store(b2, p + 4, sum), m3, a);
    OnlyHeadersTransitive(b, b2, Store(b2, p + 4, sum), mem.Keys);
    LeftMergeUnfolds(b, a, p, n, b2);
    hide MergePrevStores;
    assert MergeWithPrev(mem, a) == Merged(m3, p);
  }

  lemma MergeNextRefines(b: Bytes, mem: Memory, a: nat)
    requires Represents(b, mem) && a in mem && (mem[a].next != NULL ==> mem[a].next in mem)
    ensures Represents(MergeNextStores(b, a), MergeWithNext(mem, a)) && MergeWithNext(mem, a).Keys == mem.Keys
    ensures OnlyHeadersChanged(b, MergeNextStores(b, a), mem.Keys)
  {
    hide Store, Load, Represents, OnlyHeadersChanged;
    ReadHeader(b, mem, a);
    OnlyHeadersSame(b, mem.Keys);
    var n := mem[a].next;
    if n != NULL {
      ReadHeader(b, mem, n);
      if mem[n].kind.FreeBlock? {
        SumModulo(mem[a].size, mem[n].size);
        var m1 := mem[a := mem[a].(size := mem[a].size + mem[n].size)];
        var b1 := Store(b, a + 4, Wrap(Load(b, a + 4) + Load(b, n + 4)));
        StoreField(b, mem, a, m1[a], 4, Wrap(Load(b, a + 4) + Load(b, n + 4)));
        ReadHeader(b1, m1, a);
        ReadHeader(b1, m1, n);
        StoreField(b1, m1, a, m1[a].(next := m1[n].next), 8, m1[n].next);
        assert m1.Keys == mem.Keys;
        assert MergeWithNext(mem, a) == m1[a := m1[a].(next := m1[n].next)];
        OnlyHeadersTransitive(b, b1, Store(b1, a + 8, m1[n].next), mem.Keys);
      }
    }
  }

  /** As long as the links of the freed block lead to headers that do not overlap, the stores do what Release says. */
  lemma FreeRefines(b: Bytes, mem: Memory, a: nat)
    requires Represents(b, mem) && LinksInside(mem, a)
    ensures Represents(FreeStores(b, a), Release(mem, a)) && Release(mem, a).Keys == mem.Keys
    ensures OnlyHeadersChanged(b, FreeStores(b, a), mem.Keys)
  {
    hide Store, Load, Represents, OnlyHeadersChanged, MergePrevStores, MergeNextStores, MergeWithNext;
    ReadHeader(b, mem, a);
    if mem[a].kind.UsedBlock? {
      var b1 := Store(b, a, HEAP_BLOCK_FREE);
      var m1 := mem[a := mem[a].(kind := FreeBlock)];
      StoreField(b, mem, a, m1[a], 0, HEAP_BLOCK_FREE);
      assert m1.Keys == mem.Keys;
      MergePrevRefines(b1, m1, a);
      var r := MergeWithPrev(m1, a);
      var m := MergePrevStores(b1, a);
      MergeNextRefines(m.b, r.mem, r.header);
      OnlyHeadersTransitive(b, b1, m.b, mem.Keys);
      OnlyHeadersTransitive(b, m.b, FreeStores(b, a), mem.Keys);
    } else {
      OnlyHeadersSame(b, mem.Keys);
    }
  }

  // ----- and so do those of malloc -----

  /** A place apart from all headers can be taken for one, whatever it holds. */
  lemma AdoptHeader(b: Bytes, mem: Memory, a: nat)
    requires Represents(b, mem) && forall x :: x in mem ==> Apart(x, a)
    ensures Represents(b, mem[a := HeaderAt(b, a)])
  {
    hide Load;
    assert Matches(b, a, HeaderAt(b, a)) by {
      assert Load(b, a + 4) % U32 == Load(b, a + 4);
    }
  }

  lemma MallocRefines(b: Bytes, mem: Memory, a: nat, size: nat)
    requires Represents(b, mem) && IsFree(mem, a) && mem[a].size < U32 && a + mem[a].size <= U32
    requires Decide(mem[a].size, size) != Skip && 0 < size < U32 - HEADER_SIZE * 2
    requires Decide(mem[a].size, size) == Split ==> forall x :: x in mem ==> Apart(x, a + size + HEADER_SIZE)
    ensures Represents(MallocStores(b, a, size), Grant(mem, a, size))
    ensures OnlyHeadersChanged(b, MallocStores(b, a, size), Grant(mem, a, size).Keys)
  {
    hide Store, Load, Represents, OnlyHeadersChanged;
    ReadHeader(b, mem, a);
    DecideIsExact(mem[a].size, size);
    if Decide(mem[a].size, size) == Take {
      StoreField(b, mem, a, mem[a].(kind := UsedBlock), 0, HEAP_BLOCK_USED);
      assert Grant(mem, a, size).Keys == mem.Keys;
    } else {
      SplitRefines(b, mem, a, size);
    }
  }

  /** The four stores into the header of the new block. */
  lemma SplitHead(b: Bytes, mem: Memory, a: nat, next: nat, link: nat, left: nat)
    requires Represents(b, mem) && next < U32 && a < U32 && link < U32 && left < U32
    requires forall x :: x in mem ==> Apart(x, next)
    ensures var b' := Store(Store(Store(Store(b, next + 12, a), next + 8, link), next, HEAP_BLOCK_FREE), next + 4, left);
            Represents(b', mem[next := Header(FreeBlock, left, link, a)]) &&
            OnlyHeadersChanged(b, b', mem.Keys + {next})
  {
    hide Store, Load, Represents, OnlyHeadersChanged, HeaderAt;
    AdoptHeader(b, mem, next);
    var h := HeaderAt(b, next);
    var m0 := mem[next := h];
    var m1, b1 := m0[next := h.(prev := a)], Store(b, next + 12, a);
    StoreField(b, m0, next, m1[next], 12, a);
    var m2, b2 := m1[next := m1[next].(next := link)], Store(b1, next + 8, link);
    StoreField(b1, m1, next, m2[next], 8, link);
    var m3, b3 := m2[next := m2[next].(kind := FreeBlock)], Store(b2, next, HEAP_BLOCK_FREE);
    StoreField(b2, m2, next, m3[next], 0, HEAP_BLOCK_FREE);
    var m4, b4 := m3[next := m3[next].(size := left)], Store(b3, next + 4, left);
    StoreField(b3, m3, next, m4[next], 4, left);
    var keys := mem.Keys + {next};
    assert m0.Keys == keys && m1.Keys == keys && m2.Keys == keys && m3.Keys == keys;
    OnlyHeadersTransitive(b, b1, b2, keys);
    OnlyHeadersTransitive(b, b2, b3, keys);
    OnlyHeadersTransitive(b, b3, b4, keys);
    assert m4 == mem[next := Header(FreeBlock, left, link, a)];
  }

  /** What malloc loads between its stores is not affected by them. */
  lemma SplitLoads(b: Bytes, mem: Memory, a: nat, next: nat)
    requires Represents(b, mem) && a in mem && next < U32 && a < U32 && Apart(a, next)
    ensures var b1 := Store(b, next + 12, a);
            Load(b1, a + 8) == mem[a].next &&
            var b3 := Store(Store(b1, next + 8, mem[a].next), next, HEAP_BLOCK_FREE);
            Load(b3, a + 4) == mem[a].size % U32
  {
    hide Store, Load;
    ReadHeader(b, mem, a);
    var b1 := Store(b, next + 12, a);
    StoreElsewhere(b, next, 12, a, a);
    StoreElsewhere(b1, next, 8, mem[a].next, a);
    StoreElsewhere(Store(b1, next + 8, mem[a].next), next, 0, HEAP_BLOCK_FREE, a);
  }

  lemma SplitRefines(b: Bytes, mem: Memory, a: nat, size: nat)
    requires Represents(b, mem) && IsFree(mem, a) && mem[a].size < U32 && a + mem[a].size <= U32
    requires Decide(mem[a].size, size) == Split && 0 < size < U32 - HEADER_SIZE * 2
    requires forall x :: x in mem ==> Apart(x, a + size + HEADER_SIZE)
    ensures Represents(MallocStores(b, a, size), Grant(mem, a, size))
    ensures OnlyHeadersChanged(b, MallocStores(b, a, size), Grant(mem, a, size).Keys)
  {
    hide Store, Load, Represents, OnlyHeadersChanged;
    DecideIsExact(mem[a].size, size);
    var h, next := mem[a], a + size + HEADER_SIZE;
    assert next < U32 && Wrap(next) == next && Wrap(size + HEADER_SIZE) == size + HEADER_SIZE;
    var left := h.size - (size + HEADER_SIZE);
    assert (h.size + U32 - (size + HEADER_SIZE)) % U32 == left;
    ReadHeader(b, mem, a);
    SplitLoads(b, mem, a, next);
    SplitHead(b, mem, a, next, h.next, left);
    var m4 := mem[next := Header(FreeBlock, left, h.next, a)];
    var b4 := Store(Store(Store(Store(b, next + 12, a), next + 8, h.next), next, HEAP_BLOCK_FREE), next + 4, left);
    SplitTail(b4, m4, a, size, next);
    var keys := mem.Keys + {next};
    assert m4.Keys == keys;
    assert Grant(mem, a, size) == m4[a := Header(UsedBlock, size + HEADER_SIZE, next, h.prev)];
    assert Grant(mem, a, size).Keys == keys;
    OnlyHeadersTransitive(b, b4, MallocStores(b, a, size), keys);
  }

  /** The three stores into the header of the block that was cut. */
  lemma SplitTail(b: Bytes, mem: Memory, a: nat, size: nat, next: nat)
    requires Represents(b, mem) && a in mem && next < U32 && size + HEADER_SIZE < U32
    ensures var b' := Store(Store(Store(b, a + 8, next), a + 4, size + HEADER_SIZE), a, HEAP_BLOCK_USED);
            Represents(b', mem[a := Header(UsedBlock, size + HEADER_SIZE, next, mem[a].prev)]) &&
            OnlyHeadersChanged(b, b', mem.Keys)
  {
    hide Store, Load, Represents, OnlyHeadersChanged;
    var m5, b5 := mem[a := mem[a].(next := next)], Store(b, a + 8, next);
    StoreField(b, mem, a, m5[a], 8, next);
    var m6, b6 := m5[a := m5[a].(size := size + HEADER_SIZE)], Store(b5, a + 4, size + HEADER_SIZE);
    StoreField(b5, m5, a, m6[a], 4, size + HEADER_SIZE);
    var m7, b7 := m6[a := m6[a].(kind := UsedBlock)], Store(b6, a, HEAP_BLOCK_USED);
    StoreField(b6, m6, a, m7[a], 0, HEAP_BLOCK_USED);
    assert m5.Keys == m6.Keys == mem.Keys;
    OnlyHeadersTransitive(b, b5, b6, mem.Keys);
    OnlyHeadersTransitive(b, b6, b7, mem.Keys);
    assert m7 == mem[a := Header(UsedBlock, size + HEADER_SIZE, next, mem[a].prev)];
  }
}
