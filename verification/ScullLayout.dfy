/** The layout of a bare scull device: a list of items, each an array of pointers to quanta. */
module ScullLayout {
  import opened Common

  /** Every kmalloc'ed block carries the identity it was given when it was allocated. */
  datatype Quantum = Quantum(id: nat, bytes: seq<Byte>)
  datatype Slots = Slots(id: nat, quanta: seq<Option<Quantum>>)
  datatype Item = Item(id: nat, data: Option<Slots>)

  /** `live` holds the blocks allocated and not yet freed; `nextId` is the next identity. */
  datatype Dev = Dev(items: seq<Item>, quantum: int, qset: int, size: nat, live: set<nat>, nextId: nat) {

    predicate Positive() { quantum > 0 && qset > 0 }

    /** Every pointer array has qset entries and every quantum has quantum bytes. */
    ghost predicate Geometry() {
      forall i :: 0 <= i < |items| && items[i].data.Some? ==> SlotsFit(items[i].data.value, quantum, qset)
    }

    /** Freed exactly once means: each live block is referenced exactly once. */
    ghost predicate MemoryOk() {
      && multiset(live) == Blocks(items)
      && forall id :: id in live ==> id < nextId
    }
  }

  ghost predicate SlotsFit(slots: Slots, quantum: int, qset: int) {
    && |slots.quanta| == qset
    && forall s :: 0 <= s < |slots.quanta| && slots.quanta[s].Some? ==> |slots.quanta[s].value.bytes| == quantum
  }

  // ----- the blocks a layout refers to, with multiplicity -----

  ghost function QuantumBlocks(quanta: seq<Option<Quantum>>): multiset<nat> {
    if quanta == [] then multiset{}
    else (if quanta[0].Some? then multiset{quanta[0].value.id} else multiset{}) + QuantumBlocks(quanta[1..])
  }

  ghost function ItemBlocks(item: Item): multiset<nat> {
    multiset{item.id}
    + if item.data.Some? then multiset{item.data.value.id} + QuantumBlocks(item.data.value.quanta) else multiset{}
  }

  ghost function Blocks(items: seq<Item>): multiset<nat> {
    if items == [] then multiset{} else ItemBlocks(items[0]) + Blocks(items[1..])
  }

  lemma {:induction false} QuantumBlocksOfSet(quanta: seq<Option<Quantum>>, s: nat, q: Quantum)
    requires s < |quanta| && (quanta[s].None? || quanta[s].value.id == q.id)
    ensures QuantumBlocks(quanta[s := Some(q)])
            == QuantumBlocks(quanta) + if quanta[s].None? then multiset{q.id} else multiset{}
  {
    var after := quanta[s := Some(q)];
    if s == 0 {
      assert after[1..] == quanta[1..];
    } else {
      QuantumBlocksOfSet(quanta[1..], s - 1, q);
      assert after[1..] == quanta[1..][s - 1 := Some(q)];
    }
  }

  lemma {:induction false} BlocksOfUpdate(items: seq<Item>, i: nat, item: Item)
    requires i < |items|
    ensures Blocks(items[i := item]) + ItemBlocks(items[i]) == Blocks(items) + ItemBlocks(item)
  {
    var after := items[i := item];
    if i == 0 {
      assert after[1..] == items[1..];
    } else {
      BlocksOfUpdate(items[1..], i - 1, item);
      assert after[1..] == items[1..][i - 1 := item];
      assert items[1..][i - 1] == items[i];
      SumExchange(ItemBlocks(items[0]), Blocks(after[1..]), ItemBlocks(items[i]), Blocks(items[1..]), ItemBlocks(item));
    }
  }

  lemma SumExchange(z: multiset<nat>, a: multiset<nat>, x: multiset<nat>, b: multiset<nat>, y: multiset<nat>)
    requires a + x == b + y
    ensures (z + a) + x == (z + b) + y
  {
    forall id: nat
      ensures ((z + a) + x)[id] == ((z + b) + y)[id]
    {
      assert (a + x)[id] == (b + y)[id];
    }
  }

  lemma SumCancel(a: multiset<nat>, x: multiset<nat>, b: multiset<nat>, y: multiset<nat>, extra: multiset<nat>)
    requires a + x == b + y && y == x + extra
    ensures a == b + extra
  {
    forall id: nat
      ensures a[id] == (b + extra)[id]
    {
      assert (a + x)[id] == (b + y)[id];
    }
  }

  lemma {:induction false} BlocksOfAppend(items: seq<Item>, item: Item)
    ensures Blocks(items + [item]) == Blocks(items) + ItemBlocks(item)
  {
    hide ItemBlocks;
    var after := items + [item];
    if items == [] {
      assert after[1..] == [];
    } else {
      BlocksOfAppend(items[1..], item);
      assert after[1..] == items[1..] + [item];
      assert Blocks(after) == ItemBlocks(items[0]) + Blocks(after[1..]);
    }
  }

  /** A pointer array after memset. */
  function NoQuanta(n: nat): (quanta: seq<Option<Quantum>>)
    ensures |quanta| == n && forall s :: 0 <= s < n ==> quanta[s] == None
  {
    seq(n, _ => None)
  }

  lemma {:induction false} NoBlocksInEmptySlots(quanta: seq<Option<Quantum>>)
    requires forall s :: 0 <= s < |quanta| ==> quanta[s] == None
    ensures QuantumBlocks(quanta) == multiset{}
  {
    if quanta != [] {
      NoBlocksInEmptySlots(quanta[1..]);
    }
  }

  // ----- where an offset lives -----

  datatype Place = Place(item: nat, s: nat, q: nat)

  /** Division into items of the given size, and into quanta. */
  function Locate(off: nat, itemSize: nat, quantum: nat): (p: Place)
    requires itemSize > 0 && quantum > 0
    ensures p.q < quantum
  {
    Place(off / itemSize, off % itemSize / quantum, off % itemSize % quantum)
  }

  function PlaceOf(off: nat, quantum: nat, qset: nat): (p: Place)
    requires quantum > 0 && qset > 0
    ensures p.s < qset && p.q < quantum
  {
    ItemSizePositive(quantum, qset);
    LocatedInRange(off, quantum * qset, quantum, qset);
    Locate(off, quantum * qset, quantum)
  }

  lemma LocatedInRange(off: nat, itemSize: nat, quantum: nat, qset: nat)
    requires itemSize > 0 && quantum > 0 && itemSize == quantum * qset
    ensures Locate(off, itemSize, quantum).s < qset
  {
    SlotInRange(off % itemSize, quantum, qset);
  }

  lemma PlaceLaw(off: nat, quantum: nat, qset: nat)
    requires quantum > 0 && qset > 0
    ensures var p := PlaceOf(off, quantum, qset); off == p.item * (quantum * qset) + p.s * quantum + p.q
  {
    ItemSizePositive(quantum, qset);
    DivModLaw(off, quantum * qset);
    DivModLaw(off % (quantum * qset), quantum);
  }

  lemma ItemSizePositive(quantum: nat, qset: nat)
    requires quantum > 0 && qset > 0
    ensures quantum * qset > 0
  {
  }

  lemma SlotInRange(rest: nat, quantum: nat, qset: nat)
    requires quantum > 0 && rest < quantum * qset
    ensures rest / quantum < qset
  {
    DivModLaw(rest, quantum);
    if rest / quantum >= qset {
      MulMonotone(qset, rest / quantum, quantum);
    }
  }

  /** The three coordinates determine the offset and are determined by it. */
  lemma PlaceUnique(off: nat, quantum: nat, qset: nat, p: Place)
    requires quantum > 0 && qset > 0 && p.s < qset && p.q < quantum
    requires off == p.item * (quantum * qset) + p.s * quantum + p.q
    ensures PlaceOf(off, quantum, qset) == p
  {
    var rest := p.s * quantum + p.q;
    MulMonotone(p.s + 1, qset, quantum);
    QuotientUnique(off, quantum * qset, p.item, rest);
    QuotientUnique(rest, quantum, p.s, p.q);
  }

  /** Offsets that stay inside one quantum share its item and slot. */
  lemma SameQuantum(pos: nat, k: nat, quantum: nat, qset: nat)
    requires quantum > 0 && qset > 0 && PlaceOf(pos, quantum, qset).q + k < quantum
    ensures var p := PlaceOf(pos, quantum, qset); PlaceOf(pos + k, quantum, qset) == Place(p.item, p.s, p.q + k)
  {
    var p := PlaceOf(pos, quantum, qset);
    PlaceLaw(pos, quantum, qset);
    PlaceUnique(pos + k, quantum, qset, Place(p.item, p.s, p.q + k));
  }

  /** Two offsets in one quantum are as far apart as their positions in it. */
  lemma DistanceInQuantum(a: nat, b: nat, quantum: nat, qset: nat)
    requires quantum > 0 && qset > 0
    requires PlaceOf(a, quantum, qset).item == PlaceOf(b, quantum, qset).item
    requires PlaceOf(a, quantum, qset).s == PlaceOf(b, quantum, qset).s
    ensures a - b == PlaceOf(a, quantum, qset).q - PlaceOf(b, quantum, qset).q
  {
    PlaceLaw(a, quantum, qset);
    PlaceLaw(b, quantum, qset);
  }

  lemma ItemMonotone(a: nat, b: nat, quantum: nat, qset: nat)
    requires quantum > 0 && qset > 0 && a <= b
    ensures PlaceOf(a, quantum, qset).item <= PlaceOf(b, quantum, qset).item
  {
    var d := quantum * qset;
    ItemSizePositive(quantum, qset);
    DivModLaw(a, d);
    DivModLaw(b, d);
    if a / d > b / d {
      MulMonotone(b / d + 1, a / d, d);
    }
  }

  /** The byte that the layout holds at a place, if the quantum there exists. */
  function StoredAt(items: seq<Item>, p: Place): Option<Byte> {
    if p.item < |items| && items[p.item].data.Some? then
      var quanta := items[p.item].data.value.quanta;
      if p.s < |quanta| && quanta[p.s].Some? && p.q < |quanta[p.s].value.bytes|
      then Some(quanta[p.s].value.bytes[p.q])
      else None
    else None
  }

  function Stored(d: Dev, off: nat): Option<Byte>
    requires d.Positive()
  {
    StoredAt(d.items, PlaceOf(off, d.quantum, d.qset))
  }
}
