/** How much memory a write to a bare scull device needs, and files written and read through its calls. */
module ScullMemory {
  import opened Common
  import opened ScullLayout
  import opened ScullStorage
  import opened ScullDevice

  // ----- a write fails only for want of memory -----

  predicate HasBlock(d: Dev, p: Place) {
    HasSlot(d, p.item, p.s) && SlotsOf(d, p.item).quanta[p.s].Some?
  }

  /** The blocks that are not there yet: list items up to the one of the place, its pointer array, its quantum. */
  function Missing(d: Dev, p: Place): nat {
    (if p.item < |d.items| then 0 else p.item + 1 - |d.items|)
    + (if HasSlots(d, p.item) then 0 else 1)
    + (if HasBlock(d, p) then 0 else 1)
  }

  /** What scull_follow appends: empty items, one block each. */
  lemma {:induction false} FollowNeeds(d: Dev, n: nat, avail: nat)
    ensures var d' := ScullStorage.Follow(d, n, avail);
            && |d'.items| == |d.items| + Min(avail, if n < |d.items| then 0 else n + 1 - |d.items|)
            && d'.nextId == d.nextId + |d'.items| - |d.items| && d'.qset == d.qset && d'.quantum == d.quantum
            && d.items <= d'.items
            && forall i :: |d.items| <= i < |d'.items| ==> d'.items[i].data.None?
    decreases avail
  {
    if n >= |d.items| && avail > 0 {
      FollowNeeds(AddItem(d), n, avail - 1);
    }
  }

  lemma SlotsNeed(d: Dev, i: nat, avail: nat)
    requires d.qset > 0 && i < |d.items|
    ensures var need := if HasSlots(d, i) then 0 else 1;
            var b := FindSlots(d, i, avail);
            && (b.ok <==> avail >= need) && b.dev.nextId == d.nextId + Min(avail, need) && b.left == avail - Min(avail, need)
            && (b.ok ==> HasSlots(b.dev, i) && (HasSlots(d, i) ==> b.dev == d))
            && (b.ok && !HasSlots(d, i) ==> forall s :: 0 <= s < |SlotsOf(b.dev, i).quanta| ==> SlotsOf(b.dev, i).quanta[s].None?)
  {
  }

  lemma QuantumNeeds(d: Dev, p: Place, avail: nat, junk: nat -> Byte)
    requires d.quantum > 0 && HasSlot(d, p.item, p.s)
    ensures var need := if HasBlock(d, p) then 0 else 1;
            var c := FindQuantum(d, p.item, p.s, avail, junk);
            (c.ok <==> avail >= need) && c.dev.nextId == d.nextId + Min(avail, need)
  {
  }

  lemma PrepareNeeds(d: Dev, p: Place, avail: nat, junk: nat -> Byte)
    requires d.Positive() && d.Geometry() && p.s < d.qset
    ensures var a := Prepare(d, p, avail, junk);
            (a.ok <==> avail >= Missing(d, p)) && a.dev.nextId == d.nextId + Min(avail, Missing(d, p))
  {
    hide FindSlots, FindQuantum, ScullStorage.Follow;
    var a := FindItem(d, p.item, avail);
    FollowFrame(d, p.item, avail);
    FollowNeeds(d, p.item, avail);
    if a.ok {
      assert HasSlots(a.dev, p.item) <==> HasSlots(d, p.item);
      SlotsNeed(a.dev, p.item, a.left);
      AllocationFrame(a.dev, p);
      var b := FindSlots(a.dev, p.item, a.left);
      if b.ok {
        SlotIsThere(a.dev, p, a.left);
        assert HasBlock(b.dev, p) <==> HasBlock(d, p);
        QuantumNeeds(b.dev, p, b.left, junk);
      }
    }
  }

  lemma SlotIsThere(d: Dev, p: Place, avail: nat)
    requires d.Positive() && d.Geometry() && p.item < |d.items| && p.s < d.qset && FindSlots(d, p.item, avail).ok
    ensures HasSlot(FindSlots(d, p.item, avail).dev, p.item, p.s) && FindSlots(d, p.item, avail).dev.quantum > 0
  {
    AllocationFrame(d, p);
  }

  /** A write fails exactly when fewer blocks can be had than are missing; it allocates what is missing, or what there is. */
  lemma WriteFailsIff(d: Dev, pos: nat, buf: seq<Byte>, avail: nat, junk: nat -> Byte)
    requires d.Positive() && d.Geometry()
    ensures var need := Missing(d, PlaceOf(pos, d.quantum, d.qset));
            var w := ScullStorage.Write(d, pos, buf, avail, junk);
            (w.ret.None? <==> avail < need) && w.dev.nextId == d.nextId + Min(avail, need)
  {
    hide Prepare, Missing;
    var p := PlaceOf(pos, d.quantum, d.qset);
    PrepareNeeds(d, p, avail, junk);
    PrepareFrame(d, p, avail, junk);
  }

  // ----- sequential writes need at most three blocks each -----

  lemma NextItem(pos: nat, quantum: nat, qset: nat)
    requires quantum > 0 && qset > 0 && pos > 0
    ensures PlaceOf(pos, quantum, qset).item <= PlaceOf(pos - 1, quantum, qset).item + 1
  {
    ItemSizePositive(quantum, qset);
    var d := quantum * qset;
    NextQuotient(pos, d);
  }

  lemma NextQuotient(pos: nat, d: nat)
    requires d > 0 && pos > 0
    ensures pos / d <= (pos - 1) / d + 1
  {
    var k, r := (pos - 1) / d, (pos - 1) % d;
    DivModLaw(pos - 1, d);
    if r + 1 < d {
      QuotientUnique(pos, d, k, r + 1);
    } else {
      assert pos == (k + 1) * d;
      QuotientUnique(pos, d, k + 1, 0);
    }
  }

  /** Writing on at the end of the file needs no more than an item, a pointer array and a quantum. */
  lemma AppendNeedsThree(d: Dev, log: seq<WriteRec>)
    requires Refines(d, log) && d.Positive()
    ensures Missing(d, PlaceOf(d.size, d.quantum, d.qset)) <= 3
  {
    if d.size > 0 {
      NextItem(d.size, d.quantum, d.qset);
    }
  }

  lemma WriteSomeProgresses(d: Dev, log: seq<WriteRec>, data: seq<Byte>, pos: nat, req: Request)
    requires Refines(d, log) && d.Positive() && Filled(log, data, pos) && req.want > 0 && req.avail >= 3
    ensures pos < |data| ==> WriteSome(d, data, pos, req).pos > pos
  {
    hide ScullStorage.Write, Missing, HoldsWritten, Reaches;
    var buf := data[pos..Min(pos + req.want, |data|)];
    AppendNeedsThree(d, log);
    WriteFailsIff(d, pos, buf, req.avail, req.junk);
    WriteRefines(d, log, pos, buf, req.avail, req.junk);
  }

  /** With three blocks to be had for each write, as many nonempty requests as there are bytes write all of them. */
  lemma {:induction false} EnoughMemoryFills(d: Dev, log: seq<WriteRec>, data: seq<Byte>, pos: nat, reqs: seq<Request>)
    requires Refines(d, log) && d.Positive() && Filled(log, data, pos)
    requires forall i :: 0 <= i < |reqs| ==> reqs[i].want > 0 && reqs[i].avail >= 3
    requires |reqs| >= |data| - pos
    ensures WriteAll(d, data, pos, reqs).pos == |data|
    decreases |reqs|
  {
    if reqs != [] {
      hide WriteSome, Refines, Filled;
      var r := WriteSome(d, data, pos, reqs[0]);
      var log1 := WriteSomeFills(d, log, data, pos, reqs[0]);
      WriteSomeProgresses(d, log, data, pos, reqs[0]);
      EnoughMemoryFills(r.dev, log1, data, r.pos, reqs[1..]);
    } else {
      hide WriteSome;
    }
  }

  /** Then as many nonempty reads give back exactly the file. */
  lemma WholeFileRoundTrip(d: Dev, quantum: int, qset: int, data: seq<Byte>, reqs: seq<Request>, wants: seq<nat>)
    requires quantum > 0 && qset > 0
    requires forall i :: 0 <= i < |reqs| ==> reqs[i].want > 0 && reqs[i].avail >= 3
    requires forall i :: 0 <= i < |wants| ==> wants[i] > 0
    requires |reqs| >= |data| && |wants| >= |data|
    ensures var r := WriteAll(Trimmed(d, quantum, qset), data, 0, reqs);
            && r.pos == |data| && r.dev.Positive() && r.dev.Geometry() && r.dev.size == |data|
            && ReadAll(r.dev, 0, wants) == data
  {
    hide WriteAll, ReadAll;
    EnoughMemoryFills(Trimmed(d, quantum, qset), [], data, 0, reqs);
    FileRoundTrip(d, quantum, qset, data, reqs, wants);
    assert data[..|data|] == data;
  }

  // ----- exactly what a read returns -----

  /** A read inside the file returns what its quantum holds, as far as request, file and quantum go; nothing from a hole. */
  lemma ReadReturnsStored(d: Dev, log: seq<WriteRec>, pos: nat, count: nat, avail: nat)
    requires Refines(d, log) && d.Positive()
    ensures var bytes, p := ScullStorage.Read(d, pos, count, avail).bytes, PlaceOf(pos, d.quantum, d.qset);
            if pos < d.size && Stored(d, pos).Some? then
              && |bytes| == Min(Min(count, d.size - pos), d.quantum - p.q)
              && forall k :: 0 <= k < |bytes| ==> Stored(d, pos + k) == Some(bytes[k])
            else bytes == []
  {
    var p := PlaceOf(pos, d.quantum, d.qset);
    if pos < d.size {
      ItemMonotone(pos, d.size - 1, d.quantum, d.qset);
      assert ScullStorage.Follow(d, p.item, avail) == d;
      var bytes := ScullStorage.Read(d, pos, count, avail).bytes;
      if HasQuantum(d, p) {
        QuantumLength(d, p);
        forall k | 0 <= k < |bytes|
          ensures Stored(d, pos + k) == Some(bytes[k])
        {
          SameQuantum(pos, k, d.quantum, d.qset);
        }
      }
    }
  }

  // ----- files, through the calls -----

  /** What a read returns to its caller. */
  ghost function Returns(w: World, file: nat, count: nat): seq<Byte>
    requires file in w.fpos && w.dev.Positive() && w.dev.Geometry()
  {
    ScullStorage.Read(w.dev, w.fpos[file], count, 0).bytes
  }

  ghost predicate Ready(w: World, file: nat) {
    file in w.fpos && w.dev.Positive() && w.dev.Geometry()
  }

  function NextWrite(data: seq<Byte>, pos: nat, file: nat, req: Request): Call
    requires pos <= |data|
  {
    Call.Write(file, data[pos..Min(pos + req.want, |data|)], req.avail, req.junk)
  }

  /** One write of a copying loop moves the position by what was accepted, and no other position. */
  lemma WriteCallIs(w: World, file: nat, data: seq<Byte>, req: Request)
    requires Ready(w, file) && w.fpos[file] <= |data|
    ensures var w', r := After(w, NextWrite(data, w.fpos[file], file, req)), WriteSome(w.dev, data, w.fpos[file], req);
            w'.dev == r.dev && w'.fpos == w.fpos[file := r.pos] && w'.quantum == w.quantum && w'.qset == w.qset && Ready(w', file)
  {
    var pos := w.fpos[file];
    var buf := data[pos..Min(pos + req.want, |data|)];
    WriteKeepsGeometry(w.dev, pos, buf, req.avail, req.junk);
    hide ScullStorage.Write;
    assert w.fpos[file := pos] == w.fpos;
  }

  ghost function WriteFile(w: World, file: nat, data: seq<Byte>, reqs: seq<Request>): World
    requires Ready(w, file) && w.fpos[file] <= |data|
    decreases |reqs|
  {
    if reqs == [] then w
    else
      WriteCallIs(w, file, data, reqs[0]);
      WriteFile(After(w, NextWrite(data, w.fpos[file], file, reqs[0])), file, data, reqs[1..])
  }

  lemma {:induction false} WriteFileIs(w: World, file: nat, data: seq<Byte>, reqs: seq<Request>)
    requires Ready(w, file) && w.fpos[file] <= |data|
    ensures var w', r := WriteFile(w, file, data, reqs), WriteAll(w.dev, data, w.fpos[file], reqs);
            w'.dev == r.dev && w'.fpos == w.fpos[file := r.pos]
    decreases |reqs|
  {
    if reqs == [] {
      assert w.fpos[file := w.fpos[file]] == w.fpos;
    } else {
      WriteCallIs(w, file, data, reqs[0]);
      hide After;
      WriteFileIs(After(w, NextWrite(data, w.fpos[file], file, reqs[0])), file, data, reqs[1..]);
    }
  }

  /** One read moves the position by what it returned, and changes nothing else. */
  lemma ReadCallIs(w: World, log: seq<WriteRec>, file: nat, count: nat)
    requires Ready(w, file) && Refines(w.dev, log)
    ensures After(w, Call.Read(file, count, 0)) == w.(fpos := w.fpos[file := w.fpos[file] + |Returns(w, file, count)|])
  {
    ReadReturnsWritten(w.dev, log, w.fpos[file], count, 0);
  }

  /** What a loop of reads collects. */
  ghost function ReadFile(w: World, log: seq<WriteRec>, file: nat, wants: seq<nat>): seq<Byte>
    requires Ready(w, file) && Refines(w.dev, log)
    decreases |wants|
  {
    if wants == [] then []
    else
      ReadCallIs(w, log, file, wants[0]);
      Returns(w, file, wants[0]) + ReadFile(After(w, Call.Read(file, wants[0], 0)), log, file, wants[1..])
  }

  lemma {:induction false} ReadFileIs(w: World, log: seq<WriteRec>, file: nat, wants: seq<nat>)
    requires Ready(w, file) && Refines(w.dev, log)
    ensures ReadFile(w, log, file, wants) == ReadAll(w.dev, w.fpos[file], wants)
    decreases |wants|
  {
    hide After, ScullStorage.Read, Refines;
    if wants != [] {
      ReadCallIs(w, log, file, wants[0]);
      ReadFileIs(After(w, Call.Read(file, wants[0], 0)), log, file, wants[1..]);
    }
  }

  /**
   * Opened for writing only, written from the start, sought back to the start and read: the calls give back the
   * file, whatever geometry the module has, as long as each write can have three blocks.
   */
  lemma CallsRoundTrip(w: World, file: nat, data: seq<Byte>, reqs: seq<Request>, wants: seq<nat>) returns (log: seq<WriteRec>)
    requires w.dev.Geometry() && w.quantum > 0 && w.qset > 0
    requires forall i :: 0 <= i < |reqs| ==> reqs[i].want > 0 && reqs[i].avail >= 3
    requires forall i :: 0 <= i < |wants| ==> wants[i] > 0
    requires |reqs| >= |data| && |wants| >= |data|
    ensures var start := After(w, Open(file, true));
            Ready(start, file) && start.fpos[file] == 0 &&
            var written := WriteFile(start, file, data, reqs);
            file in written.fpos && written.fpos[file] == |data| && written.dev.Geometry() &&
            var back := After(written, Seek(file, 0, 0));
            Ready(back, file) && back.fpos[file] == 0 && Refines(back.dev, log) && ReadFile(back, log, file, wants) == data &&
            After(written, Seek(file, 0, 2)).fpos[file] == |data|
  {
    var start := After(w, Open(file, true));
    log := SequentialWritesFill(start.dev, [], data, 0, reqs);
    WriteFileIs(start, file, data, reqs);
    WholeFileRoundTrip(w.dev, w.quantum, w.qset, data, reqs, wants);
    hide WriteFile, WriteAll, ReadAll;
    var back := After(WriteFile(start, file, data, reqs), Seek(file, 0, 0));
    ReadFileIs(back, log, file, wants);
  }

  // ----- positions and geometry -----

  /** Where llseek lands: absolute, relative to the position, relative to the largest end of a write; never below zero. */
  lemma SeekLands(w: World, file: nat, off: int, whence: int)
    requires Refines(w.dev, w.log) && file in w.fpos
    ensures var w' := After(w, Seek(file, off, whence));
            && w'.fpos.Keys == w.fpos.Keys && w' == w.(fpos := w'.fpos)
            && (forall f :: f in w.fpos && f != file ==> w'.fpos[f] == w.fpos[f])
            && (whence == 0 && off >= 0 ==> w'.fpos[file] == off)
            && (whence == 1 && w.fpos[file] + off >= 0 ==> w'.fpos[file] == w.fpos[file] + off)
            && (whence == 2 && MaxEnd(w.log) + off >= 0 ==> w'.fpos[file] == MaxEnd(w.log) + off)
            && (whence == 0 && off < 0 ==> w' == w)
            && (whence == 1 && w.fpos[file] + off < 0 ==> w' == w)
            && (whence == 2 && MaxEnd(w.log) + off < 0 ==> w' == w)
            && (whence < 0 || whence > 2 ==> w' == w)
  {
  }

  /** What an ioctl sets is what the next opening for writing only lays out, and nothing before that. */
  lemma IoctlSetsNextGeometry(w: World, quantum: int, qset: int, file: nat)
    requires w.dev.Geometry()
    ensures var a := After(w, SetQuantum(quantum));
            var b := After(a, SetQset(qset));
            var c := After(b, Reset);
            && a.dev == b.dev == c.dev == w.dev
            && (var d := After(a, Open(file, true)).dev; d.quantum == quantum && d.qset == w.qset)
            && (var d := After(b, Open(file, true)).dev; d.quantum == quantum && d.qset == qset)
            && (var d := After(c, Open(file, true)).dev; d.quantum == 4000 && d.qset == 1000)
            && After(c, Open(file, false)).dev == w.dev && After(c, Open(file, false)).fpos == w.fpos[file := 0]
  {
  }
}
