/** The scull device object with its in-place loops, and whole runs of calls on it. */
module ScullDevice {
  import opened Common
  import opened ScullLayout
  import opened ScullStorage

  const SCULL_QUANTUM := 4000
  const SCULL_QSET := 1000

  /** One element of the device's list; the identity stands for the memory block it occupies. */
  class ItemNode {
    const id: nat
    var data: Option<Slots>
    var next: ItemNode?

    constructor (id: nat)
      ensures this.id == id && data == None && next == null
    {
      this.id := id;
      data := None;
      next := null;
    }
  }

  /** What the link of node i must be. */
  ghost function NextOf(nodes: seq<ItemNode>, i: nat): ItemNode?
    requires i < |nodes|
  {
    if i + 1 < |nodes| then nodes[i + 1] else null
  }

  /** The device fields and the kernel memory behind them. */
  class Device {
    var data: ItemNode?
    var quantum: int
    var qset: int
    var size: nat
    var live: set<nat>
    var nextId: nat
    ghost var nodes: seq<ItemNode>
    ghost var items: seq<Item>

    /** The nodes are exactly the ones reached from `data`, without repetition, and `items` is what they hold. */
    ghost predicate Linked()
      reads this`data, this`nodes, this`items, nodes
    {
      && |items| == |nodes|
      && (forall i :: 0 <= i < |nodes| ==> items[i] == Item(nodes[i].id, nodes[i].data))
      && data == (if nodes == [] then null else nodes[0])
      && (forall i :: 0 <= i < |nodes| ==> nodes[i].next == NextOf(nodes, i))
      && (forall i, j :: 0 <= i < j < |nodes| ==> nodes[i] != nodes[j])
    }

    ghost function View(): Dev
      reads this
    {
      Dev(items, quantum, qset, size, live, nextId)
    }

    /** The geometry comes from the module parameters. */
    constructor (scullQuantum: int, scullQset: int)
      ensures Linked() && View() == Dev([], scullQuantum, scullQset, 0, {}, 0) && Refines(View(), [])
    {
      data, nodes, items := null, [], [];
      quantum, qset, size, live, nextId := scullQuantum, scullQset, 0, {}, 0;
    }

    /** Freeing a block that is not allocated is a bug, so it may not be called for one. */
    method Kfree(id: nat)
      requires id in live
      modifies this`live
      ensures live == old(live) - {id}
    {
      live := live - {id};
    }

    /** Frees every quantum, every pointer array and every item: each block once, none left. */
    method Trim(scullQuantum: int, scullQset: int)
      requires Linked() && View().Geometry() && View().MemoryOk()
      modifies this
      ensures Linked() && View() == Trimmed(old(View()), scullQuantum, scullQset)
    {
      hide Blocks, ItemBlocks, SlotsFit;
      assert View().items[0..] == View().items;
      FreeAll();
      data, nodes, items, size, quantum, qset := null, [], [], 0, scullQuantum, scullQset;
    }

    /** The loop of scull_trim. */
    method FreeAll()
      requires Linked() && View().Geometry() && multiset(live) == Blocks(items[0..])
      modifies this`live
      ensures live == {}
    {
      hide Blocks, ItemBlocks, SlotsFit;
      var dptr := data;
      ghost var n: nat := 0;
      while dptr != null
        invariant n <= |nodes| && dptr == (if n < |nodes| then nodes[n] else null)
        invariant multiset(live) == Blocks(items[n..])
        decreases |nodes| - n
      {
        dptr := FreeNode(dptr, n);
        n := n + 1;
      }
      NothingLive(live, items, n);
    }

    method FreeNode(dptr: ItemNode, ghost n: nat) returns (next: ItemNode?)
      requires Linked() && View().Geometry() && n < |nodes| && dptr == nodes[n]
      requires multiset(live) == Blocks(items[n..])
      modifies this`live
      ensures multiset(live) == Blocks(items[n + 1..]) && next == NextOf(nodes, n)
    {
      hide Blocks, ItemBlocks;
      FirstBlock(items, n);
      next := dptr.next;
      FreeItem(Item(dptr.id, dptr.data), Blocks(items[n + 1..]));
    }

    /** The body of scull_trim's list loop; `rest` is what must stay allocated. */
    method FreeItem(item: Item, ghost rest: multiset<nat>)
      requires item.data.Some? ==> |item.data.value.quanta| == qset
      requires multiset(live) == ItemBlocks(item) + rest
      modifies this`live
      ensures multiset(live) == rest
    {
      if item.data.Some? {
        var slots := item.data.value;
        ghost var rest1 := multiset{item.id} + rest;
        ghost var rest2 := multiset{slots.id} + rest1;
        assert multiset(live) == QuantumBlocks(slots.quanta) + rest2;
        FreeQuanta(slots.quanta, rest2);
        FreeOne(live, slots.id, rest1);
        Kfree(slots.id);
      }
      FreeOne(live, item.id, rest);
      Kfree(item.id);
    }

    method FreeQuanta(quanta: seq<Option<Quantum>>, ghost rest: multiset<nat>)
      requires |quanta| == qset
      requires multiset(live) == QuantumBlocks(quanta) + rest
      modifies this`live
      ensures multiset(live) == rest
    {
      var i := 0;
      assert quanta[0..] == quanta;
      while i < qset
        invariant i <= qset
        invariant multiset(live) == QuantumBlocks(quanta[i..]) + rest
      {
        assert quanta[i..][0] == quanta[i] && quanta[i..][1..] == quanta[i + 1..];
        if quanta[i].Some? {
          ghost var rest' := QuantumBlocks(quanta[i + 1..]) + rest;
          assert multiset(live) == multiset{quanta[i].value.id} + rest';
          FreeOne(live, quanta[i].value.id, rest');
          Kfree(quanta[i].value.id);
        }
        i := i + 1;
      }
    }

    /** scull_follow: walks the list and extends it, as long as memory lasts. */
    method Follow(n: nat, avail: nat) returns (qs: ItemNode?, left: nat)
      requires Linked()
      modifies this`data, this`nodes, this`items, this`live, this`nextId, nodes
      ensures Linked() && View() == ScullStorage.Follow(old(View()), n, avail)
      ensures |items| == |nodes| && qs == (if n < |nodes| then nodes[n] else null)
      ensures left == avail - (|items| - |old(items)|)
      ensures forall node :: node in nodes ==> node in old(nodes) || fresh(node)
    {
      FollowUnfold(View(), n, avail);
      hide ScullStorage.Follow, AddItem;
      left, qs := avail, data;
      if qs == null {
        if left == 0 {
          return;
        }
        qs := AppendFirst();
        left := left - 1;
      }
      qs, left := FollowFrom(qs, n, left);
    }

    /** The loop of scull_follow, from the first node on. */
    method FollowFrom(first: ItemNode, n: nat, avail: nat) returns (qs: ItemNode?, left: nat)
      requires Linked() && nodes != [] && first == nodes[0] && |items| == |nodes|
      modifies this`nodes, this`items, this`live, this`nextId, nodes
      ensures Linked() && View() == ScullStorage.Follow(old(View()), n, avail)
      ensures |items| == |nodes| && qs == (if n < |nodes| then nodes[n] else null)
      ensures left == avail - (|items| - |old(items)|)
      ensures forall node :: node in nodes ==> node in old(nodes) || fresh(node)
    {
      hide Linked, AddItem, ScullStorage.Follow, NextOf;
      left, qs := avail, first;
      var at := 0;
      while at < n
        invariant at <= n && |items| == |nodes| && at < |nodes| && qs == nodes[at] && Linked()
        invariant forall node :: node in nodes ==> node in old(nodes) || fresh(node)
        invariant |old(items)| < |items| ==> at == |items| - 1
        invariant left == avail - (|items| - |old(items)|)
        invariant ScullStorage.Follow(View(), n, left) == ScullStorage.Follow(old(View()), n, avail)
      {
        FollowUnfold(View(), n, left);
        assert qs in nodes;
        qs, left := Advance(qs, at, left);
        if qs == null {
          return;
        }
        at := at + 1;
      }
      FollowUnfold(View(), n, left);
    }

    /** One step along the list; null if the list ends here and cannot be extended. */
    method Advance(qs: ItemNode, ghost at: nat, avail: nat) returns (next: ItemNode?, left: nat)
      requires Linked() && at < |nodes| && qs == nodes[at]
      modifies this`nodes, this`items, this`live, this`nextId, qs`next
      ensures Linked() && |items| == |nodes| && |old(items)| == |old(nodes)|
      ensures at + 1 < |old(nodes)| || avail == 0 ==> View() == old(View()) && nodes == old(nodes) && left == avail
      ensures at + 1 < |old(nodes)| ==> next == nodes[at + 1]
      ensures at + 1 == |old(nodes)| && avail == 0 ==> next == null
      ensures at + 1 == |old(nodes)| && avail > 0 ==>
        && View() == AddItem(old(View())) && |items| == |old(items)| + 1 && left == avail - 1
        && next != null && fresh(next) && nodes == old(nodes) + [next]
    {
      left := avail;
      if qs.next == null {
        if left == 0 {
          return null, left;
        }
        AppendAfter(qs);
        left := left - 1;
      }
      next := qs.next;
    }

    method AppendFirst() returns (node: ItemNode)
      requires Linked() && data == null
      modifies this`data, this`nodes, this`items, this`live, this`nextId
      ensures Linked() && View() == AddItem(old(View()))
      ensures nodes == [node] && fresh(node)
    {
      node := new ItemNode(nextId);
      data, nodes, items := node, [node], [Item(node.id, None)];
      live, nextId := live + {nextId}, nextId + 1;
    }

    method AppendAfter(last: ItemNode)
      requires Linked() && nodes != [] && last == nodes[|nodes| - 1]
      modifies last`next, this`nodes, this`items, this`live, this`nextId
      ensures Linked() && View() == AddItem(old(View()))
      ensures last.next != null && fresh(last.next) && nodes == old(nodes) + [last.next]
    {
      ghost var was := nodes;
      var node := new ItemNode(nextId);
      last.next := node;
      nodes, items := was + [node], items + [Item(node.id, None)];
      live, nextId := live + {nextId}, nextId + 1;
      forall i | 0 <= i < |nodes|
        ensures nodes[i].next == NextOf(nodes, i)
      {
        assert i < |was| - 1 ==> was[i] != last && was[i].next == was[i + 1];
      }
    }

    /** Replaces the data of the node at position i. */
    method SetNodeData(at: ItemNode, ghost i: nat, slots: Slots)
      requires Linked() && i < |nodes| && at == nodes[i]
      modifies at`data, this`items
      ensures Linked() && View() == SetData(old(View()), i, slots)
    {
      at.data := Some(slots);
      items := items[i := items[i].(data := Some(slots))];
    }

    method EnsureSlots(at: ItemNode, ghost i: nat, avail: nat) returns (ok: bool, left: nat)
      requires Linked() && i < |nodes| && at == nodes[i] && qset > 0
      modifies at`data, this`items, this`live, this`nextId
      ensures Linked() && Prepared(View(), left, ok) == FindSlots(old(View()), i, avail)
    {
      if at.data.Some? {
        return true, avail;
      }
      if avail == 0 {
        return false, 0;
      }
      SetNodeData(at, i, Slots(nextId, NoQuanta(qset)));
      live, nextId := live + {nextId}, nextId + 1;
      return true, avail - 1;
    }

    method EnsureQuantum(at: ItemNode, ghost i: nat, s: nat, avail: nat, junk: nat -> Byte) returns (ok: bool, left: nat)
      requires Linked() && i < |nodes| && at == nodes[i] && HasSlot(View(), i, s) && quantum > 0
      modifies at`data, this`items, this`live, this`nextId
      ensures Linked() && Prepared(View(), left, ok) == FindQuantum(old(View()), i, s, avail, junk)
    {
      var slots := at.data.value;
      if slots.quanta[s].Some? {
        return true, avail;
      }
      if avail == 0 {
        return false, 0;
      }
      slots := slots.(quanta := slots.quanta[s := Some(Quantum(nextId, seq(quantum, junk)))]);
      SetNodeData(at, i, slots);
      live, nextId := live + {nextId}, nextId + 1;
      return true, avail - 1;
    }

    /** copy_from_user into the quantum, then the size. */
    method StoreBytes(at: ItemNode, p: Place, pos: nat, bytes: seq<Byte>)
      requires Linked() && p.item < |nodes| && at == nodes[p.item]
      requires HasQuantum(View(), p) && p.q + |bytes| <= |QuantumAt(View(), p).bytes|
      modifies at`data, this`items, this`size
      ensures Linked() && View() == Store(old(View()), p, pos, bytes)
    {
      hide NextOf;
      var slots := at.data.value;
      var q := slots.quanta[p.s].value;
      assert slots == SlotsOf(View(), p.item) && q == QuantumAt(View(), p);
      q := q.(bytes := q.bytes[..p.q] + bytes + q.bytes[p.q + |bytes|..]);
      SetNodeData(at, p.item, slots.(quanta := slots.quanta[p.s := Some(q)]));
      if size < pos + |bytes| {
        size := pos + |bytes|;
      }
    }

    /** The lookups and allocations of a write; null is -ENOMEM. */
    method PrepareQuantum(p: Place, avail: nat, junk: nat -> Byte) returns (dptr: ItemNode?)
      requires Linked() && View().Positive() && View().Geometry() && p.s < qset && p.q < quantum
      modifies this`data, this`nodes, this`items, this`live, this`nextId, nodes
      ensures Linked()
      ensures var a := Prepare(old(View()), p, avail, junk);
              View() == a.dev && (dptr != null <==> a.ok) && (a.ok ==> p.item < |nodes| && dptr == nodes[p.item])
      ensures dptr != null ==> dptr in nodes
      ensures forall node :: node in nodes ==> node in old(nodes) || fresh(node)
    {
      hide Linked, AddSlots, AddQuantum, SetData, ScullStorage.SetQuantum, ScullStorage.Follow, Blocks, AddItem, NextOf;
      FollowFrame(View(), p.item, avail);
      var left, ok;
      dptr, left := Follow(p.item, avail);
      if dptr == null {
        return;
      }
      assert dptr in nodes;
      AllocationFrame(View(), p);
      ok, left := EnsureSlots(dptr, p.item, left);
      if !ok {
        return null;
      }
      ok, left := EnsureQuantum(dptr, p.item, p.s, left, junk);
      if !ok {
        return null;
      }
    }

    /** scull_write; None is -ENOMEM. */
    method Write(pos: nat, buf: seq<Byte>, avail: nat, junk: nat -> Byte) returns (ret: Option<nat>)
      requires Linked() && View().Positive() && View().Geometry()
      modifies this, nodes
      ensures Linked() && Written(View(), ret) == ScullStorage.Write(old(View()), pos, buf, avail, junk)
      ensures forall node :: node in nodes ==> node in old(nodes) || fresh(node)
    {
      hide Linked, Prepare, Store, Blocks;
      var p := PlaceOf(pos, quantum, qset);
      PrepareFrame(View(), p, avail, junk);
      var dptr := PrepareQuantum(p, avail, junk);
      if dptr == null {
        return None;
      }
      var count := Min(|buf|, quantum - p.q);
      StoreBytes(dptr, p, pos, buf[..count]);
      ret := Some(count);
    }

    /** scull_read. */
    method Read(pos: nat, count: nat, avail: nat) returns (bytes: seq<Byte>)
      requires Linked() && View().Positive() && View().Geometry()
      modifies this, nodes
      ensures Linked() && ReadOut(View(), bytes) == ScullStorage.Read(old(View()), pos, count, avail)
      ensures forall node :: node in nodes ==> node in old(nodes) || fresh(node)
    {
      hide Linked, ScullStorage.Follow, Blocks, NextOf;
      if pos >= size {
        return [];
      }
      var c := if pos + count > size then size - pos else count;
      var p := PlaceOf(pos, quantum, qset);
      FollowFrame(View(), p.item, avail);
      var dptr, _ := Follow(p.item, avail);
      if dptr == null {
        return [];
      }
      var d := DataOf(dptr, p.item);
      if d.None? {
        return [];
      }
      AllocationFrame(View(), p);
      var quanta := d.value.quanta;
      if quanta[p.s].None? {
        return [];
      }
      assert SlotsFit(d.value, quantum, qset);
      bytes := quanta[p.s].value.bytes[p.q..p.q + Min(c, quantum - p.q)];
    }

    method DataOf(at: ItemNode, ghost i: nat) returns (d: Option<Slots>)
      requires Linked() && i < |nodes| && at == nodes[i]
      ensures i < |items| && d == items[i].data
    {
      d := at.data;
    }
  }

  lemma FollowUnfold(d: Dev, n: nat, avail: nat)
    ensures n < |d.items| || avail == 0 ==> ScullStorage.Follow(d, n, avail) == d
    ensures n >= |d.items| && avail > 0 ==> ScullStorage.Follow(d, n, avail) == ScullStorage.Follow(AddItem(d), n, avail - 1)
  {
  }

  lemma FirstBlock(items: seq<Item>, n: nat)
    requires n < |items|
    ensures Blocks(items[n..]) == ItemBlocks(items[n]) + Blocks(items[n + 1..])
  {
    assert items[n..][0] == items[n] && items[n..][1..] == items[n + 1..];
  }

  lemma NothingLive(live: set<nat>, items: seq<Item>, n: nat)
    requires n == |items| && multiset(live) == Blocks(items[n..])
    ensures live == {}
  {
    assert items[n..] == [];
    assert forall id :: id in live ==> id in multiset(live);
  }

  lemma FreeOne(live: set<nat>, id: nat, rest: multiset<nat>)
    requires multiset(live) == multiset{id} + rest
    ensures id in live && multiset(live - {id}) == rest
  {
    assert id in multiset(live);
    forall x: nat
      ensures multiset(live - {id})[x] == rest[x]
    {
      assert multiset(live)[x] == (multiset{id} + rest)[x];
    }
  }

  // ----- whole runs -----

  /** One device, the module-wide geometry, the open files and the writes since the last trim. */
  datatype World = World(dev: Dev, quantum: int, qset: int, fpos: map<nat, nat>, log: seq<WriteRec>)

  datatype Call =
    | Open(file: nat, writeOnly: bool)
    | Write(file: nat, buf: seq<Byte>, avail: nat, junk: nat -> Byte)
    | Read(file: nat, count: nat, avail: nat)
    | Seek(file: nat, off: int, whence: int)
    | Reset
    | SetQuantum(arg: int)
    | SetQset(arg: int)

  /** The files must be open, and a geometry that is not positive makes the driver divide by zero. */
  predicate Enabled(w: World, call: Call) {
    match call
    case Write(file, _, _, _) => file in w.fpos && w.dev.Positive()
    case Read(file, _, _) => file in w.fpos && w.dev.Positive()
    case Seek(file, _, _) => file in w.fpos
    case _ => true
  }

  /** scull_llseek: None is -EINVAL. */
  function SeekTo(cur: nat, size: nat, off: int, whence: int): Option<nat> {
    if whence !in {0, 1, 2} then None
    else
      var newpos := if whence == 0 then off else if whence == 1 then cur + off else size + off;
      if newpos < 0 then None else Some(newpos)
  }

  ghost function After(w: World, call: Call): World
    requires Enabled(w, call) && w.dev.Geometry()
  {
    match call
    case Open(file, writeOnly) =>
      var w' := w.(fpos := w.fpos[file := 0]);
      if writeOnly then w'.(dev := Trimmed(w.dev, w.quantum, w.qset), log := []) else w'
    case Write(file, buf, avail, junk) =>
      var pos := w.fpos[file];
      var out := ScullStorage.Write(w.dev, pos, buf, avail, junk);
      if out.ret.None? then w.(dev := out.dev)
      else
        w.(dev := out.dev, fpos := w.fpos[file := pos + out.ret.value],
           log := w.log + [WriteRec(pos, buf[..Min(out.ret.value, |buf|)])])
    case Read(file, count, avail) =>
      var out := ScullStorage.Read(w.dev, w.fpos[file], count, avail);
      w.(dev := out.dev, fpos := w.fpos[file := w.fpos[file] + |out.bytes|])
    case Seek(file, off, whence) =>
      var to := SeekTo(w.fpos[file], w.dev.size, off, whence);
      if to.None? then w else w.(fpos := w.fpos[file := to.value])
    case Reset => w.(quantum := SCULL_QUANTUM, qset := SCULL_QSET)
    case SetQuantum(arg) => w.(quantum := arg)
    case SetQset(arg) => w.(qset := arg)
  }

  ghost predicate IsRun(run: seq<World>, calls: seq<Call>) {
    && |run| == |calls| + 1
    && run[0].dev == Dev([], run[0].quantum, run[0].qset, 0, {}, 0) && run[0].log == []
    && forall i :: 0 <= i < |calls| ==>
         Enabled(run[i], calls[i]) && run[i].dev.Geometry() && run[i + 1] == After(run[i], calls[i])
  }

  lemma CallKeepsRefines(w: World, call: Call)
    requires Enabled(w, call) && Refines(w.dev, w.log)
    ensures Refines(After(w, call).dev, After(w, call).log)
  {
    match call
    case Write(file, buf, avail, junk) => WriteRefines(w.dev, w.log, w.fpos[file], buf, avail, junk);
    case Read(file, count, avail) => ReadReturnsWritten(w.dev, w.log, w.fpos[file], count, avail);
    case _ =>
  }

  /**
   * Across any mix of opens, writes, reads, seeks and geometry changes the device is the byte map of the
   * writes since the last trim, laid out in its own geometry, and owns each of its blocks exactly once.
   */
  lemma {:induction false} RunRefines(run: seq<World>, calls: seq<Call>, i: nat)
    requires IsRun(run, calls) && i <= |calls|
    ensures Refines(run[i].dev, run[i].log)
  {
    if i > 0 {
      RunRefines(run, calls, i - 1);
      CallKeepsRefines(run[i - 1], calls[i - 1]);
    }
  }

  /** An ioctl reaches the layout only through a trim. */
  lemma GeometryChangesOnlyAtTrim(w: World, call: Call)
    requires Enabled(w, call) && Refines(w.dev, w.log)
    ensures var d := After(w, call).dev;
            if call.Open? && call.writeOnly then d.quantum == w.quantum && d.qset == w.qset && d.items == [] && d.live == {}
            else d.quantum == w.dev.quantum && d.qset == w.dev.qset
  {
    match call
    case Write(file, buf, avail, junk) => WriteRefines(w.dev, w.log, w.fpos[file], buf, avail, junk);
    case Read(file, count, avail) => ReadReturnsWritten(w.dev, w.log, w.fpos[file], count, avail);
    case _ =>
  }

  // ----- sequential short writes, then sequential short reads -----

  /** One request of a copying loop: how many bytes it asks for, and how the allocator behaves. */
  datatype Request = Request(want: nat, avail: nat, junk: nat -> Byte)

  datatype Progress = Progress(dev: Dev, pos: nat)

  /** Writes `data` from offset 0 on, retrying what a short or failed write left over. */
  function WriteSome(d: Dev, data: seq<Byte>, pos: nat, req: Request): (r: Progress)
    requires d.Positive() && d.Geometry() && pos <= |data|
    ensures r.dev.Positive() && r.dev.Geometry() && pos <= r.pos <= |data|
  {
    var buf := data[pos..Min(pos + req.want, |data|)];
    WriteKeepsGeometry(d, pos, buf, req.avail, req.junk);
    var out := ScullStorage.Write(d, pos, buf, req.avail, req.junk);
    Progress(out.dev, if out.ret.None? then pos else pos + out.ret.value)
  }

  function WriteAll(d: Dev, data: seq<Byte>, pos: nat, reqs: seq<Request>): Progress
    requires d.Positive() && d.Geometry() && pos <= |data|
    decreases |reqs|
  {
    if reqs == [] then Progress(d, pos)
    else
      var r := WriteSome(d, data, pos, reqs[0]);
      WriteAll(r.dev, data, r.pos, reqs[1..])
  }

  lemma WriteKeepsGeometry(d: Dev, pos: nat, buf: seq<Byte>, avail: nat, junk: nat -> Byte)
    requires d.Positive() && d.Geometry()
    ensures var w := ScullStorage.Write(d, pos, buf, avail, junk);
            w.dev.Positive() && w.dev.Geometry() && (w.ret.Some? ==> w.ret.value <= |buf|)
  {
    var p := PlaceOf(pos, d.quantum, d.qset);
    PrepareFrame(d, p, avail, junk);
    var a := Prepare(d, p, avail, junk);
    if a.ok {
      var d' := Store(a.dev, p, pos, buf[..Min(|buf|, d.quantum - p.q)]);
      assert SlotsFit(SlotsOf(a.dev, p.item), d.quantum, d.qset);
      assert SlotsFit(SlotsOf(d', p.item), d.quantum, d.qset);
      assert forall i :: 0 <= i < |a.dev.items| && i != p.item ==> d'.items[i] == a.dev.items[i];
    }
  }

  /** Reads from `pos` on, collecting what the short reads return. */
  function ReadAll(d: Dev, pos: nat, wants: seq<nat>): seq<Byte>
    requires d.Positive() && d.Geometry()
    decreases |wants|
  {
    if wants == [] then []
    else
      var bytes := ScullStorage.Read(d, pos, wants[0], 0).bytes;
      bytes + ReadAll(d, pos + |bytes|, wants[1..])
  }

  /** The log holds exactly the first n bytes of data. */
  ghost predicate Filled(log: seq<WriteRec>, data: seq<Byte>, n: nat) {
    && n <= |data| && MaxEnd(log) == n
    && forall off: nat :: off < n ==> ByteAt(log, off) == Some(data[off])
  }

  lemma SliceOfSlice(data: seq<Byte>, a: nat, b: nat, k: nat)
    requires a <= b <= |data| && k <= b - a
    ensures data[a..b][..k] == data[a..a + k]
  {
  }

  lemma WriteSomeFills(d: Dev, log: seq<WriteRec>, data: seq<Byte>, pos: nat, req: Request)
    returns (log': seq<WriteRec>)
    requires Refines(d, log) && d.Positive() && Filled(log, data, pos)
    ensures var r := WriteSome(d, data, pos, req); Refines(r.dev, log') && Filled(log', data, r.pos)
  {
    hide ScullStorage.Write, ByteAt, MaxEnd, HoldsWritten, Blocks;
    var buf := data[pos..Min(pos + req.want, |data|)];
    WriteRefines(d, log, pos, buf, req.avail, req.junk);
    var ret := ScullStorage.Write(d, pos, buf, req.avail, req.junk).ret;
    log' := if ret.None? then log else log + [WriteRec(pos, buf[..ret.value])];
    if ret.Some? {
      SliceOfSlice(data, pos, pos + |buf|, ret.value);
      FilledGrows(log, data, pos, WriteRec(pos, buf[..ret.value]));
    }
  }

  lemma {:induction false} SequentialWritesFill(d: Dev, log: seq<WriteRec>, data: seq<Byte>, pos: nat, reqs: seq<Request>)
    returns (log': seq<WriteRec>)
    requires Refines(d, log) && d.Positive() && Filled(log, data, pos)
    ensures var r := WriteAll(d, data, pos, reqs); Refines(r.dev, log') && r.dev.Positive() && Filled(log', data, r.pos)
    decreases |reqs|
  {
    if reqs == [] {
      log' := log;
    } else {
      var r := WriteSome(d, data, pos, reqs[0]);
      var log1 := WriteSomeFills(d, log, data, pos, reqs[0]);
      log' := SequentialWritesFill(r.dev, log1, data, r.pos, reqs[1..]);
    }
  }

  lemma FilledGrows(log: seq<WriteRec>, data: seq<Byte>, pos: nat, w: WriteRec)
    requires Filled(log, data, pos) && w.pos == pos && pos + |w.bytes| <= |data|
    requires w.bytes == data[pos..pos + |w.bytes|]
    ensures Filled(log + [w], data, pos + |w.bytes|)
  {
    ByteAtAppend(log, w, 0);
    forall off: nat | off < pos + |w.bytes|
      ensures ByteAt(log + [w], off) == Some(data[off])
    {
      ByteAtAppend(log, w, off);
    }
  }

  /** What one short read of a filled device returns. */
  ghost predicate ReturnsData(data: seq<Byte>, n: nat, pos: nat, bytes: seq<Byte>) {
    pos + |bytes| <= n <= |data| && bytes == data[pos..pos + |bytes|] && (pos < n ==> bytes != [])
  }

  lemma ReadSomeReturns(d: Dev, log: seq<WriteRec>, data: seq<Byte>, n: nat, pos: nat, want: nat)
    requires Refines(d, log) && d.Positive() && Filled(log, data, n) && pos <= n && want > 0
    ensures ReturnsData(data, n, pos, ScullStorage.Read(d, pos, want, 0).bytes)
  {
    ReadReturnsWritten(d, log, pos, want, 0);
    var bytes := ScullStorage.Read(d, pos, want, 0).bytes;
    forall k | 0 <= k < |bytes|
      ensures bytes[k] == data[pos + k]
    {
      assert ByteAt(log, pos + k).Some?;
    }
    if pos < n {
      assert ByteAt(log, pos).Some?;
    }
  }

  ghost predicate ReadsBack(d: Dev, data: seq<Byte>, n: nat)
    requires d.Positive() && d.Geometry()
  {
    n <= |data| && forall pos: nat, want: nat :: pos <= n && want > 0 ==>
      ReturnsData(data, n, pos, ScullStorage.Read(d, pos, want, 0).bytes)
  }

  lemma JoinSlices(data: seq<Byte>, a: nat, b: nat, c: nat)
    requires a <= b <= c <= |data|
    ensures data[a..b] + data[b..c] == data[a..c]
  {
  }

  lemma {:induction false} SequentialReadsReturn(d: Dev, data: seq<Byte>, n: nat, pos: nat, wants: seq<nat>)
    requires d.Positive() && d.Geometry() && ReadsBack(d, data, n) && pos <= n
    requires forall i :: 0 <= i < |wants| ==> wants[i] > 0
    ensures var got := ReadAll(d, pos, wants);
            pos + |got| <= n && got == data[pos..pos + |got|] && |got| >= Min(|wants|, n - pos)
    decreases |wants|
  {
    hide ScullStorage.Read;
    if wants != [] {
      var bytes := ScullStorage.Read(d, pos, wants[0], 0).bytes;
      assert ReturnsData(data, n, pos, bytes);
      var next := pos + |bytes|;
      SequentialReadsReturn(d, data, n, next, wants[1..]);
      JoinSlices(data, pos, next, next + |ReadAll(d, next, wants[1..])|);
    }
  }

  /**
   * A device filled from offset 0 by any sequence of short or failing writes is read back exactly, by any
   * sequence of short reads: the reads return a prefix of what was accepted, and enough of them all of it.
   */
  lemma FileRoundTrip(d: Dev, quantum: int, qset: int, data: seq<Byte>, reqs: seq<Request>, wants: seq<nat>)
    requires quantum > 0 && qset > 0
    requires forall i :: 0 <= i < |wants| ==> wants[i] > 0
    ensures var r := WriteAll(Trimmed(d, quantum, qset), data, 0, reqs);
            && r.pos <= |data| && r.dev.Positive() && r.dev.Geometry() && r.dev.size == r.pos
            && var got := ReadAll(r.dev, 0, wants);
               |got| <= r.pos && got == data[..|got|] && (|wants| >= r.pos ==> got == data[..r.pos])
  {
    var log := SequentialWritesFill(Trimmed(d, quantum, qset), [], data, 0, reqs);
    var r := WriteAll(Trimmed(d, quantum, qset), data, 0, reqs);
    forall pos: nat, want: nat | pos <= r.pos && want > 0
      ensures ReturnsData(data, r.pos, pos, ScullStorage.Read(r.dev, pos, want, 0).bytes)
    {
      ReadSomeReturns(r.dev, log, data, r.pos, pos, want);
    }
    SequentialReadsReturn(r.dev, data, r.pos, 0, wants);
  }
}
