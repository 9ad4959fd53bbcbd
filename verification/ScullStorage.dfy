/** Reading, writing and trimming a bare scull device, and the sparse byte map it refines. */
module ScullStorage {
  import opened Common
  import opened ScullLayout

  // ----- the specification: the writes since the last trim -----

  datatype WriteRec = WriteRec(pos: nat, bytes: seq<Byte>)

  /** The byte most recently written at an offset. */
  ghost function ByteAt(log: seq<WriteRec>, off: nat): Option<Byte> {
    if log == [] then None
    else
      var w := log[|log| - 1];
      if w.pos <= off < w.pos + |w.bytes| then Some(w.bytes[off - w.pos])
      else ByteAt(log[..|log| - 1], off)
  }

  /** The largest end of a write. */
  ghost function MaxEnd(log: seq<WriteRec>): nat {
    if log == [] then 0
    else
      var w := log[|log| - 1];
      var before := MaxEnd(log[..|log| - 1]);
      if before < w.pos + |w.bytes| then w.pos + |w.bytes| else before
  }

  lemma ByteAtAppend(log: seq<WriteRec>, w: WriteRec, off: nat)
    ensures ByteAt(log + [w], off)
            == if w.pos <= off < w.pos + |w.bytes| then Some(w.bytes[off - w.pos]) else ByteAt(log, off)
    ensures MaxEnd(log + [w]) == if MaxEnd(log) < w.pos + |w.bytes| then w.pos + |w.bytes| else MaxEnd(log)
  {
    assert (log + [w])[..|log|] == log;
  }

  /** Nothing has been written at or beyond the recorded size. */
  lemma {:induction false} WrittenBelowMaxEnd(log: seq<WriteRec>, off: nat)
    ensures ByteAt(log, off).Some? ==> off < MaxEnd(log)
  {
    if log != [] {
      WrittenBelowMaxEnd(log[..|log| - 1], off);
    }
  }

  /** The device holds every written byte, knows the size, and owns each of its blocks once. */
  ghost predicate Refines(d: Dev, log: seq<WriteRec>) {
    && d.Geometry()
    && d.MemoryOk()
    && d.size == MaxEnd(log)
    && (!d.Positive() ==> d.items == [] && log == [])
    && (d.Positive() ==> HoldsWritten(d, log) && Reaches(d))
  }

  ghost predicate HoldsWritten(d: Dev, log: seq<WriteRec>)
    requires d.Positive()
  {
    forall off: nat :: ByteAt(log, off).Some? ==> Stored(d, off) == ByteAt(log, off)
  }

  /** The list extends to every offset below the size. */
  ghost predicate Reaches(d: Dev)
    requires d.Positive()
  {
    d.size > 0 ==> PlaceOf(d.size - 1, d.quantum, d.qset).item < |d.items|
  }

  // ----- the steps of the driver -----

  /** The first `avail` calls of kmalloc succeed, the next one returns NULL. */
  function Follow(d: Dev, n: nat, avail: nat): Dev
    decreases avail
  {
    if n < |d.items| || avail == 0 then d
    else Follow(AddItem(d), n, avail - 1)
  }

  function AddItem(d: Dev): Dev {
    d.(items := d.items + [Item(d.nextId, None)], live := d.live + {d.nextId}, nextId := d.nextId + 1)
  }

  function SetData(d: Dev, i: nat, slots: Slots): Dev
    requires i < |d.items|
  {
    d.(items := d.items[i := d.items[i].(data := Some(slots))])
  }

  function AddSlots(d: Dev, i: nat): Dev
    requires i < |d.items| && d.qset > 0
  {
    SetData(d, i, Slots(d.nextId, NoQuanta(d.qset))).(live := d.live + {d.nextId}, nextId := d.nextId + 1)
  }

  predicate HasSlots(d: Dev, i: nat) {
    i < |d.items| && d.items[i].data.Some?
  }

  function SlotsOf(d: Dev, i: nat): Slots
    requires HasSlots(d, i)
  {
    d.items[i].data.value
  }

  predicate HasSlot(d: Dev, i: nat, s: nat) {
    HasSlots(d, i) && s < |SlotsOf(d, i).quanta|
  }

  function SetQuantum(d: Dev, i: nat, s: nat, q: Quantum): Dev
    requires HasSlot(d, i, s)
  {
    var slots := SlotsOf(d, i);
    SetData(d, i, slots.(quanta := slots.quanta[s := Some(q)]))
  }

  /** kmalloc does not clear the quantum: it holds whatever `junk` says. */
  function AddQuantum(d: Dev, i: nat, s: nat, junk: nat -> Byte): Dev
    requires HasSlot(d, i, s) && d.quantum > 0
  {
    SetQuantum(d, i, s, Quantum(d.nextId, seq(d.quantum, junk))).(live := d.live + {d.nextId}, nextId := d.nextId + 1)
  }

  predicate HasQuantum(d: Dev, p: Place) {
    HasSlot(d, p.item, p.s) && SlotsOf(d, p.item).quanta[p.s].Some?
    && p.q < |SlotsOf(d, p.item).quanta[p.s].value.bytes|
  }

  function QuantumAt(d: Dev, p: Place): (q: Quantum)
    requires HasQuantum(d, p)
    ensures p.q < |q.bytes|
  {
    SlotsOf(d, p.item).quanta[p.s].value
  }

  function PutBytes(d: Dev, p: Place, bytes: seq<Byte>): Dev
    requires HasQuantum(d, p) && p.q + |bytes| <= |QuantumAt(d, p).bytes|
  {
    var before := QuantumAt(d, p);
    SetQuantum(d, p.item, p.s, before.(bytes := before.bytes[..p.q] + bytes + before.bytes[p.q + |bytes|..]))
  }

  /** What a call of scull_write does: None stands for -ENOMEM, after which f_pos is unchanged. */
  datatype Written = Written(dev: Dev, ret: Option<nat>)

  /** The device after the lookups and allocations of a write, and whether they all succeeded. */
  datatype Prepared = Prepared(dev: Dev, left: nat, ok: bool)

  function FindItem(d: Dev, n: nat, avail: nat): Prepared
    requires d.Positive() && d.Geometry()
  {
    var d' := Follow(d, n, avail);
    FollowFrame(d, n, avail);
    Prepared(d', avail - (|d'.items| - |d.items|), n < |d'.items|)
  }

  function FindSlots(d: Dev, i: nat, avail: nat): Prepared
    requires d.qset > 0 && i < |d.items|
  {
    if d.items[i].data.Some? then Prepared(d, avail, true)
    else if avail == 0 then Prepared(d, 0, false)
    else Prepared(AddSlots(d, i), avail - 1, true)
  }

  function FindQuantum(d: Dev, i: nat, s: nat, avail: nat, junk: nat -> Byte): Prepared
    requires d.quantum > 0 && HasSlot(d, i, s)
  {
    if SlotsOf(d, i).quanta[s].Some? then Prepared(d, avail, true)
    else if avail == 0 then Prepared(d, 0, false)
    else Prepared(AddQuantum(d, i, s, junk), avail - 1, true)
  }

  function Prepare(d: Dev, p: Place, avail: nat, junk: nat -> Byte): Prepared
    requires d.Positive() && d.Geometry() && p.s < d.qset
  {
    var a := FindItem(d, p.item, avail);
    FollowFrame(d, p.item, avail);
    if !a.ok then a
    else
      var b := FindSlots(a.dev, p.item, a.left);
      AllocationFrame(a.dev, p);
      if !b.ok then b else FindQuantum(b.dev, p.item, p.s, b.left, junk)
  }

  function Write(d: Dev, pos: nat, buf: seq<Byte>, avail: nat, junk: nat -> Byte): Written
    requires d.Positive() && d.Geometry()
  {
    var p := PlaceOf(pos, d.quantum, d.qset);
    var a := Prepare(d, p, avail, junk);
    PrepareFrame(d, p, avail, junk);
    if !a.ok then Written(a.dev, None)
    else
      var count := Min(|buf|, d.quantum - p.q);
      Written(Store(a.dev, p, pos, buf[..count]), Some(count))
  }

  /** The bytes and the new size go in. */
  function Store(d: Dev, p: Place, pos: nat, bytes: seq<Byte>): (d': Dev)
    requires HasQuantum(d, p) && p.q + |bytes| <= |QuantumAt(d, p).bytes|
    ensures d'.quantum == d.quantum && d'.qset == d.qset
  {
    PutBytes(d, p, bytes).(size := if d.size < pos + |bytes| then pos + |bytes| else d.size)
  }

  // ----- what the intermediate steps keep -----

  ghost predicate Layout(d: Dev) {
    d.Positive() && d.Geometry() && d.MemoryOk()
  }

  /** Only unallocated places may gain a value between d and d'. */
  ghost predicate Extends(d: Dev, d': Dev) {
    && d.Positive() && d'.Positive()
    && d'.quantum == d.quantum && d'.qset == d.qset && d'.size == d.size
    && |d.items| <= |d'.items|
    && forall p: Place :: StoredAt(d.items, p).Some? ==> StoredAt(d'.items, p) == StoredAt(d.items, p)
  }

  lemma AddItemKeepsMemory(d: Dev)
    requires d.MemoryOk()
    ensures AddItem(d).MemoryOk()
  {
    hide Blocks;
    var d' := AddItem(d);
    BlocksOfAppend(d.items, Item(d.nextId, None));
    assert Blocks(d'.items) == Blocks(d.items) + multiset{d.nextId};
    assert d.nextId !in d.live;
    assert multiset(d'.live) == multiset(d.live) + multiset{d.nextId};
  }

  lemma AddItemFrame(d: Dev)
    requires d.Positive() && d.Geometry()
    ensures AddItem(d).Geometry() && Extends(d, AddItem(d)) && (d.MemoryOk() ==> AddItem(d).MemoryOk())
  {
    if d.MemoryOk() {
      AddItemKeepsMemory(d);
    }
  }

  lemma {:induction false} FollowFrame(d: Dev, n: nat, avail: nat)
    requires d.Positive() && d.Geometry()
    ensures var d' := Follow(d, n, avail);
            && d'.Geometry() && Extends(d, d') && (d.MemoryOk() ==> d'.MemoryOk())
            && |d'.items| <= |d.items| + avail
            && (n < |d.items| ==> d' == d)
            && (n >= |d'.items| ==> |d'.items| == |d.items| + avail)
    decreases avail
  {
    if n >= |d.items| && avail > 0 {
      AddItemFrame(d);
      FollowFrame(AddItem(d), n, avail - 1);
    }
  }

  lemma AddSlotsKeepsMemory(d: Dev, i: nat)
    requires d.MemoryOk() && d.qset > 0 && i < |d.items| && d.items[i].data.None?
    ensures AddSlots(d, i).MemoryOk()
  {
    var d' := AddSlots(d, i);
    NoBlocksInEmptySlots(NoQuanta(d.qset));
    assert ItemBlocks(d'.items[i]) == ItemBlocks(d.items[i]) + multiset{d.nextId};
    BlocksOfUpdate(d.items, i, d'.items[i]);
    AddedOnce(d, d', ItemBlocks(d.items[i]), ItemBlocks(d'.items[i]));
  }

  lemma AllocationFrame(d: Dev, p: Place)
    requires d.Positive() && d.Geometry() && p.item < |d.items| && p.s < d.qset
    ensures d.items[p.item].data.None? ==>
      var d' := AddSlots(d, p.item);
      d'.Geometry() && Extends(d, d') && HasSlot(d', p.item, p.s) && (d.MemoryOk() ==> d'.MemoryOk())
    ensures d.items[p.item].data.Some? ==> HasSlot(d, p.item, p.s)
  {
    if d.items[p.item].data.None? {
      if d.MemoryOk() {
        AddSlotsKeepsMemory(d, p.item);
      }
    } else {
      assert SlotsFit(SlotsOf(d, p.item), d.quantum, d.qset);
    }
  }

  /** Replacing one item by one with one more, new block keeps the accounts right. */
  lemma AddedOnce(d: Dev, d': Dev, x: multiset<nat>, y: multiset<nat>)
    requires d.MemoryOk()
    requires d'.live == d.live + {d.nextId} && d'.nextId == d.nextId + 1
    requires Blocks(d'.items) + x == Blocks(d.items) + y
    requires y == x + multiset{d.nextId}
    ensures d'.MemoryOk()
  {
    assert d.nextId !in d.live;
    assert multiset(d'.live) == multiset(d.live) + multiset{d.nextId};
    SumCancel(Blocks(d'.items), x, Blocks(d.items), y, multiset{d.nextId});
  }

  lemma AddQuantumKeepsMemory(d: Dev, i: nat, s: nat, junk: nat -> Byte)
    requires d.MemoryOk() && d.quantum > 0 && HasSlot(d, i, s) && SlotsOf(d, i).quanta[s].None?
    ensures AddQuantum(d, i, s, junk).MemoryOk()
  {
    var d' := AddQuantum(d, i, s, junk);
    QuantumBlocksOfSet(SlotsOf(d, i).quanta, s, Quantum(d.nextId, seq(d.quantum, junk)));
    assert ItemBlocks(d'.items[i]) == ItemBlocks(d.items[i]) + multiset{d.nextId};
    BlocksOfUpdate(d.items, i, d'.items[i]);
    AddedOnce(d, d', ItemBlocks(d.items[i]), ItemBlocks(d'.items[i]));
  }

  lemma QuantumFrame(d: Dev, p: Place, junk: nat -> Byte)
    requires d.Positive() && d.Geometry() && HasSlot(d, p.item, p.s) && p.q < d.quantum
    ensures SlotsOf(d, p.item).quanta[p.s].None? ==>
      var d' := AddQuantum(d, p.item, p.s, junk);
      && d'.Geometry() && Extends(d, d') && HasQuantum(d', p) && |QuantumAt(d', p).bytes| == d.quantum
      && (d.MemoryOk() ==> d'.MemoryOk())
    ensures SlotsOf(d, p.item).quanta[p.s].Some? ==> HasQuantum(d, p) && |QuantumAt(d, p).bytes| == d.quantum
  {
    hide Blocks;
    assert SlotsFit(SlotsOf(d, p.item), d.quantum, d.qset);
    if SlotsOf(d, p.item).quanta[p.s].None? {
      var d' := AddQuantum(d, p.item, p.s, junk);
      assert SlotsFit(SlotsOf(d', p.item), d.quantum, d.qset);
      if d.MemoryOk() {
        AddQuantumKeepsMemory(d, p.item, p.s, junk);
      }
    }
  }

  lemma PrepareFrame(d: Dev, p: Place, avail: nat, junk: nat -> Byte)
    requires d.Positive() && d.Geometry() && p.s < d.qset && p.q < d.quantum
    ensures var a := Prepare(d, p, avail, junk);
            && a.dev.Geometry() && Extends(d, a.dev) && (d.MemoryOk() ==> a.dev.MemoryOk())
            && (a.ok ==> HasQuantum(a.dev, p) && |QuantumAt(a.dev, p).bytes| == d.quantum)
  {
    var a := FindItem(d, p.item, avail);
    FollowFrame(d, p.item, avail);
    if a.ok {
      var b := FindSlots(a.dev, p.item, a.left);
      AllocationFrame(a.dev, p);
      ExtendsTransitive(d, a.dev, b.dev);
      if b.ok {
        QuantumFrame(b.dev, p, junk);
        ExtendsTransitive(d, b.dev, FindQuantum(b.dev, p.item, p.s, b.left, junk).dev);
      }
    }
  }

  lemma ExtendsTransitive(a: Dev, b: Dev, c: Dev)
    requires Extends(a, b) && Extends(b, c)
    ensures Extends(a, c)
  {
  }

  /** Storing bytes changes exactly the offsets they are for. */
  lemma PutBytesFrame(d: Dev, pos: nat, bytes: seq<Byte>)
    requires Layout(d)
    requires var p := PlaceOf(pos, d.quantum, d.qset); HasQuantum(d, p) && p.q + |bytes| <= d.quantum
    requires |QuantumAt(d, PlaceOf(pos, d.quantum, d.qset)).bytes| == d.quantum
    ensures var d' := PutBytes(d, PlaceOf(pos, d.quantum, d.qset), bytes);
            && Layout(d') && d'.size == d.size && |d'.items| == |d.items|
            && d'.quantum == d.quantum && d'.qset == d.qset
            && forall off: nat :: Stored(d', off)
                 == if pos <= off < pos + |bytes| then Some(bytes[off - pos]) else Stored(d, off)
  {
    var p := PlaceOf(pos, d.quantum, d.qset);
    PutBytesKeepsLayout(d, p, bytes);
    forall off: nat
      ensures Stored(PutBytes(d, p, bytes), off)
              == if pos <= off < pos + |bytes| then Some(bytes[off - pos]) else Stored(d, off)
    {
      PutBytesAt(d, pos, bytes, off);
    }
  }

  lemma PutBytesAt(d: Dev, pos: nat, bytes: seq<Byte>, off: nat)
    requires d.Positive()
    requires var p := PlaceOf(pos, d.quantum, d.qset); HasQuantum(d, p) && p.q + |bytes| <= d.quantum
    requires |QuantumAt(d, PlaceOf(pos, d.quantum, d.qset)).bytes| == d.quantum
    ensures Stored(PutBytes(d, PlaceOf(pos, d.quantum, d.qset), bytes), off)
            == if pos <= off < pos + |bytes| then Some(bytes[off - pos]) else Stored(d, off)
  {
    var p := PlaceOf(pos, d.quantum, d.qset);
    var o := PlaceOf(off, d.quantum, d.qset);
    if pos <= off < pos + |bytes| {
      SameQuantum(pos, off - pos, d.quantum, d.qset);
    } else if o.item == p.item && o.s == p.s {
      DistanceInQuantum(off, pos, d.quantum, d.qset);
    }
  }

  lemma PutBytesKeepsLayout(d: Dev, p: Place, bytes: seq<Byte>)
    requires Layout(d) && HasQuantum(d, p) && p.q + |bytes| <= d.quantum == |QuantumAt(d, p).bytes|
    ensures Layout(PutBytes(d, p, bytes))
  {
    var d' := PutBytes(d, p, bytes);
    var q := SlotsOf(d', p.item).quanta[p.s].value;
    QuantumBlocksOfSet(SlotsOf(d, p.item).quanta, p.s, q);
    assert ItemBlocks(d'.items[p.item]) == ItemBlocks(d.items[p.item]);
    BlocksOfUpdate(d.items, p.item, d'.items[p.item]);
    SumCancel(Blocks(d'.items), ItemBlocks(d.items[p.item]), Blocks(d.items), ItemBlocks(d'.items[p.item]), multiset{});
    assert SlotsFit(SlotsOf(d, p.item), d.quantum, d.qset);
    assert SlotsFit(SlotsOf(d', p.item), d.quantum, d.qset);
  }

  // ----- scull_write against the log -----

  lemma ExtendsKeepsRefines(d: Dev, d': Dev, log: seq<WriteRec>)
    requires Refines(d, log) && d.Positive() && Extends(d, d') && d'.Geometry() && d'.MemoryOk()
    ensures Refines(d', log)
  {
  }

  /** The last part of a write: the quantum is there, the bytes and the size go in. */
  lemma StoreRefines(d: Dev, log: seq<WriteRec>, pos: nat, bytes: seq<Byte>)
    requires Refines(d, log) && d.Positive()
    requires var p := PlaceOf(pos, d.quantum, d.qset); HasQuantum(d, p) && p.q + |bytes| <= d.quantum
    requires |QuantumAt(d, PlaceOf(pos, d.quantum, d.qset)).bytes| == d.quantum
    ensures Refines(Store(d, PlaceOf(pos, d.quantum, d.qset), pos, bytes), log + [WriteRec(pos, bytes)])
  {
    hide StoredAt, ByteAt, Blocks;
    var p := PlaceOf(pos, d.quantum, d.qset);
    var size := if d.size < pos + |bytes| then pos + |bytes| else d.size;
    PutBytesHeld(d, log, pos, bytes);
    assert size == MaxEnd(log + [WriteRec(pos, bytes)]) by {
      ByteAtAppend(log, WriteRec(pos, bytes), 0);
    }
    assert size > 0 ==> PlaceOf(size - 1, d.quantum, d.qset).item < |d.items| by {
      if d.size < pos + |bytes| {
        LastWrittenItem(pos, |bytes|, d.quantum, d.qset);
      }
    }
    SizedRefines(PutBytes(d, p, bytes), log + [WriteRec(pos, bytes)], size);
  }

  lemma SizedRefines(d: Dev, log: seq<WriteRec>, size: nat)
    requires Layout(d) && HoldsWritten(d, log) && size == MaxEnd(log)
    requires size > 0 ==> PlaceOf(size - 1, d.quantum, d.qset).item < |d.items|
    ensures Refines(d.(size := size), log)
  {
    var d' := d.(size := size);
    assert d'.Geometry() && d'.MemoryOk() && d'.Positive();
    assert forall off: nat :: Stored(d', off) == Stored(d, off);
  }

  lemma PutBytesHeld(d: Dev, log: seq<WriteRec>, pos: nat, bytes: seq<Byte>)
    requires Layout(d) && HoldsWritten(d, log)
    requires var p := PlaceOf(pos, d.quantum, d.qset); HasQuantum(d, p) && p.q + |bytes| <= d.quantum
    requires |QuantumAt(d, PlaceOf(pos, d.quantum, d.qset)).bytes| == d.quantum
    ensures var d' := PutBytes(d, PlaceOf(pos, d.quantum, d.qset), bytes);
            && Layout(d') && |d'.items| == |d.items| && d'.quantum == d.quantum && d'.qset == d.qset
            && HoldsWritten(d', log + [WriteRec(pos, bytes)])
  {
    var d' := PutBytes(d, PlaceOf(pos, d.quantum, d.qset), bytes);
    PutBytesFrame(d, pos, bytes);
    forall off: nat
      ensures ByteAt(log + [WriteRec(pos, bytes)], off).Some?
              ==> Stored(d', off) == ByteAt(log + [WriteRec(pos, bytes)], off)
    {
      ByteAtAppend(log, WriteRec(pos, bytes), off);
    }
  }

  /** The end of a write never lies beyond the item it started in. */
  lemma LastWrittenItem(pos: nat, k: nat, quantum: nat, qset: nat)
    requires quantum > 0 && qset > 0 && pos + k > 0 && PlaceOf(pos, quantum, qset).q + k <= quantum
    ensures PlaceOf(pos + k - 1, quantum, qset).item <= PlaceOf(pos, quantum, qset).item
  {
    if k > 0 {
      SameQuantum(pos, k - 1, quantum, qset);
    } else {
      ItemMonotone(pos - 1, pos, quantum, qset);
    }
  }

  /**
   * A write that runs out of memory changes no byte; otherwise it logs the prefix it accepted, which ends
   * with the request or with the quantum and so is nonempty whenever the request is.
   */
  lemma WriteRefines(d: Dev, log: seq<WriteRec>, pos: nat, buf: seq<Byte>, avail: nat, junk: nat -> Byte)
    requires Refines(d, log) && d.Positive()
    ensures var w := Write(d, pos, buf, avail, junk);
            && w.dev.quantum == d.quantum && w.dev.qset == d.qset
            && (w.ret.None? ==> Refines(w.dev, log))
            && (w.ret.Some? ==>
                  && w.ret.value <= |buf| && (buf != [] ==> w.ret.value > 0)
                  && w.ret.value == Min(|buf|, d.quantum - PlaceOf(pos, d.quantum, d.qset).q)
                  && Refines(w.dev, log + [WriteRec(pos, buf[..w.ret.value])]))
  {
    hide Prepare, Store, ByteAt, MaxEnd, HoldsWritten, Reaches, Blocks, StoredAt;
    var p := PlaceOf(pos, d.quantum, d.qset);
    var a := Prepare(d, p, avail, junk);
    PrepareFrame(d, p, avail, junk);
    ExtendsKeepsRefines(d, a.dev, log);
    if a.ok {
      var count := Min(|buf|, d.quantum - p.q);
      StoreRefines(a.dev, log, pos, buf[..count]);
      assert Write(d, pos, buf, avail, junk) == Written(Store(a.dev, p, pos, buf[..count]), Some(count));
    } else {
      assert Write(d, pos, buf, avail, junk) == Written(a.dev, None);
    }
  }

  /** What became of one offset when bytes were stored at [pos, pos + |bytes|). */
  ghost predicate OnlyRangeChanged(d: Dev, d': Dev, pos: nat, bytes: seq<Byte>, off: nat)
    requires d.Positive() && d'.Positive()
  {
    if pos <= off < pos + |bytes| then Stored(d', off) == Some(bytes[off - pos])
    else Stored(d, off).Some? ==> Stored(d', off) == Stored(d, off)
  }

  lemma StoreChangesOnlyItsRange(d: Dev, d': Dev, pos: nat, bytes: seq<Byte>, off: nat)
    requires Layout(d') && Extends(d, d')
    requires var p := PlaceOf(pos, d'.quantum, d'.qset); HasQuantum(d', p) && p.q + |bytes| <= d'.quantum
    requires |QuantumAt(d', PlaceOf(pos, d'.quantum, d'.qset)).bytes| == d'.quantum
    ensures OnlyRangeChanged(d, Store(d', PlaceOf(pos, d'.quantum, d'.qset), pos, bytes), pos, bytes, off)
  {
    hide Blocks, StoredAt;
    PutBytesFrame(d', pos, bytes);
    var p := PlaceOf(pos, d'.quantum, d'.qset);
    assert Stored(Store(d', p, pos, bytes), off) == Stored(PutBytes(d', p, bytes), off);
    var _ := StoredAt(d.items, PlaceOf(off, d.quantum, d.qset));
  }

  /** A write leaves every byte that exists outside [pos, pos + ret) as it was, and sets those inside. */
  lemma WriteChangesOnlyItsRange(d: Dev, pos: nat, buf: seq<Byte>, avail: nat, junk: nat -> Byte, off: nat)
    requires Layout(d)
    ensures var w := Write(d, pos, buf, avail, junk);
            var k := if w.ret.Some? then w.ret.value else 0;
            w.dev.Positive() && k <= |buf| && OnlyRangeChanged(d, w.dev, pos, buf[..k], off)
  {
    hide Prepare, Store, Blocks, StoredAt;
    var p := PlaceOf(pos, d.quantum, d.qset);
    var a := Prepare(d, p, avail, junk);
    PrepareFrame(d, p, avail, junk);
    if a.ok {
      var count := Min(|buf|, d.quantum - p.q);
      StoreChangesOnlyItsRange(d, a.dev, pos, buf[..count], off);
      assert Write(d, pos, buf, avail, junk) == Written(Store(a.dev, p, pos, buf[..count]), Some(count));
    } else {
      assert Write(d, pos, buf, avail, junk) == Written(a.dev, None);
    }
  }

  // ----- scull_read against the log -----

  datatype ReadOut = ReadOut(dev: Dev, bytes: seq<Byte>)

  lemma QuantumLength(d: Dev, p: Place)
    requires d.Geometry() && HasQuantum(d, p)
    ensures |QuantumAt(d, p).bytes| == d.quantum
  {
    assert SlotsFit(SlotsOf(d, p.item), d.quantum, d.qset);
  }

  function Read(d: Dev, pos: nat, count: nat, avail: nat): ReadOut
    requires d.Positive() && d.Geometry()
  {
    if pos >= d.size then ReadOut(d, [])
    else
      var c := if pos + count > d.size then d.size - pos else count;
      var p := PlaceOf(pos, d.quantum, d.qset);
      var d' := Follow(d, p.item, avail);
      FollowFrame(d, p.item, avail);
      if !HasQuantum(d', p) then ReadOut(d', [])  // out of memory, or a hole
      else
        QuantumLength(d', p);
        ReadOut(d', QuantumAt(d', p).bytes[p.q..p.q + Min(c, d.quantum - p.q)])
  }

  /**
   * A read allocates nothing, returns the last byte written at every written offset, never passes the
   * size, and from a written offset goes on to the end of the request, of the file or of the quantum.
   */
  lemma ReadReturnsWritten(d: Dev, log: seq<WriteRec>, pos: nat, count: nat, avail: nat)
    requires Refines(d, log) && d.Positive()
    ensures var r := Read(d, pos, count, avail);
            && r.dev == d
            && |r.bytes| <= count
            && (r.bytes != [] ==> pos + |r.bytes| <= d.size)
            && (forall k :: 0 <= k < |r.bytes| && ByteAt(log, pos + k).Some? ==> ByteAt(log, pos + k) == Some(r.bytes[k]))
            && (count > 0 && ByteAt(log, pos).Some? ==> r.bytes != [])
            && (ByteAt(log, pos).Some? ==>
                  |r.bytes| == Min(Min(count, d.size - pos), d.quantum - PlaceOf(pos, d.quantum, d.qset).q))
  {
    WrittenBelowMaxEnd(log, pos);
    if pos < d.size {
      var p := PlaceOf(pos, d.quantum, d.qset);
      ItemMonotone(pos, d.size - 1, d.quantum, d.qset);
      assert Follow(d, p.item, avail) == d;
      var bytes := Read(d, pos, count, avail).bytes;
      forall k | 0 <= k < |bytes| && ByteAt(log, pos + k).Some?
        ensures ByteAt(log, pos + k) == Some(bytes[k])
      {
        assert SlotsFit(SlotsOf(d, p.item), d.quantum, d.qset);
        SameQuantum(pos, k, d.quantum, d.qset);
        assert Stored(d, pos + k) == Some(bytes[k]);
      }
      if ByteAt(log, pos).Some? {
        assert Stored(d, pos).Some?;
        assert SlotsFit(SlotsOf(d, p.item), d.quantum, d.qset);
      }
    }
  }

  // ----- trimming -----

  /** An emptied device takes over the module-wide geometry. */
  function Trimmed(d: Dev, quantum: int, qset: int): Dev {
    Dev([], quantum, qset, 0, {}, d.nextId)
  }

  lemma TrimRefines(d: Dev, quantum: int, qset: int)
    ensures Refines(Trimmed(d, quantum, qset), [])
  {
  }
}
