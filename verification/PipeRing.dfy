/** The circular buffer of the scull pipe, as a value, and the proof that it is a FIFO. */
module PipeRing {
  import opened Common

  /** `rp` and `wp` are offsets from the start of the buffer; one slot always stays empty. */
  datatype Ring = Ring(buf: seq<Byte>, rp: nat, wp: nat) {

    predicate Valid() {
      rp < |buf| && wp < |buf|
    }

    /** The bytes that have been written and not yet read, oldest first. */
    ghost function Contents(): seq<Byte>
      requires Valid()
    {
      if rp <= wp then buf[rp..wp] else buf[rp..] + buf[..wp]
    }

    function SpaceFree(): (space: int)
      requires Valid()
      ensures space >= 0
    {
      if rp == wp then |buf| - 1
      else
        RingDistance(rp, wp, |buf|);
        (rp + |buf| - wp) % |buf| - 1
    }

    /** How many bytes a read past the wait loop moves: it stops at the end of the buffer. */
    function ReadCount(count: nat): nat
      requires Valid()
    {
      if wp > rp then Min(count, wp - rp) else Min(count, |buf| - rp)
    }

    /** How many bytes a write past the wait loop accepts. */
    function WriteCount(count: nat): (k: nat)
      requires Valid() && SpaceFree() > 0
      ensures k <= count
    {
      var c := Min(count, SpaceFree());
      if wp >= rp then Min(c, |buf| - wp) else Min(c, rp - wp - 1)
    }

    function Wrap(p: nat): nat
      requires p <= |buf|
    {
      if p == |buf| then 0 else p
    }

    function ReadData(count: nat): seq<Byte>
      requires Valid()
    {
      buf[rp..rp + ReadCount(count)]
    }

    function AfterRead(count: nat): Ring
      requires Valid()
    {
      this.(rp := Wrap(rp + ReadCount(count)))
    }

    function AfterWrite(data: seq<Byte>): Ring
      requires Valid() && SpaceFree() > 0
    {
      var k := WriteCount(|data|);
      Ring(buf[..wp] + data[..k] + buf[wp + k..], rp, Wrap(wp + k))
    }
  }

  /** An opened pipe: both pointers at the start. */
  function Opened(buf: seq<Byte>): (r: Ring)
    requires |buf| >= 1
    ensures r.Valid() && r.Contents() == [] && r.SpaceFree() == |buf| - 1
  {
    Ring(buf, 0, 0)
  }

  /** Free space and stored bytes always add up to one less than the buffer size. */
  lemma SpaceFreeComplementsContents(r: Ring)
    requires r.Valid()
    ensures r.SpaceFree() + |r.Contents()| == |r.buf| - 1
    ensures r.rp == r.wp <==> r.Contents() == []
  {
    if r.rp != r.wp {
      RingDistance(r.rp, r.wp, |r.buf|);
    }
  }

  /** The modular distance from wp forward to rp. */
  lemma RingDistance(rp: nat, wp: nat, n: nat)
    requires rp < n && wp < n && rp != wp
    ensures (rp + n - wp) % n == if rp > wp then rp - wp else rp + n - wp
  {
    if rp > wp {
      var x := rp - wp;
      assert (x + n) % n == x;
    }
  }

  // ----- slices of the buffer -----

  lemma SliceDrop(s: seq<Byte>, a: nat, b: nat, k: nat)
    requires a + k <= b <= |s|
    ensures s[a..b][..k] == s[a..a + k] && s[a..b][k..] == s[a + k..b]
  {
  }

  lemma SuffixDrop(s: seq<Byte>, a: nat, t: seq<Byte>, k: nat)
    requires a + k <= |s|
    ensures (s[a..] + t)[..k] == s[a..a + k] && (s[a..] + t)[k..] == s[a + k..] + t
  {
  }

  /** What `d` written at `at` does to the slices around it. */
  lemma PatchBefore(s: seq<Byte>, at: nat, d: seq<Byte>, from: nat)
    requires from <= at && at + |d| <= |s|
    ensures var s' := s[..at] + d + s[at + |d|..];
            |s'| == |s| && s'[from..at + |d|] == s[from..at] + d
  {
  }

  lemma PatchAfter(s: seq<Byte>, at: nat, d: seq<Byte>, from: nat)
    requires at + |d| <= from <= |s|
    ensures var s' := s[..at] + d + s[at + |d|..];
            |s'| == |s| && s'[from..] == s[from..]
  {
  }

  // ----- reads -----

  /** A read takes the oldest bytes, in order, and a nonzero request makes progress. */
  lemma ReadTakesOldest(r: Ring, count: nat)
    requires r.Valid() && r.rp != r.wp
    ensures var k := |r.ReadData(count)|;
            && k <= |r.Contents()| && k <= count
            && (count > 0 ==> k > 0)
            && r.ReadData(count) == r.Contents()[..k]
            && r.AfterRead(count).Valid()
            && r.AfterRead(count).Contents() == r.Contents()[k..]
  {
    hide r.SpaceFree;
    var k := r.ReadCount(count);
    if r.rp < r.wp {
      SliceDrop(r.buf, r.rp, r.wp, k);
    } else {
      SuffixDrop(r.buf, r.rp, r.buf[..r.wp], k);
      assert r.rp + k == |r.buf| ==> r.buf[r.rp + k..] + r.buf[..r.wp] == r.buf[0..r.wp];
    }
  }

  lemma ReadSplits(r: Ring, count: nat)
    requires r.Valid() && r.rp != r.wp
    ensures r.AfterRead(count).Valid()
    ensures r.Contents() == r.ReadData(count) + r.AfterRead(count).Contents()
    ensures |r.ReadData(count)| == r.ReadCount(count) && (count > 0 ==> r.ReadData(count) != [])
  {
    ReadTakesOldest(r, count);
    var k, before := |r.ReadData(count)|, r.Contents();
    assert before == before[..k] + before[k..];
  }

  /** A read returns less than was asked for and stored only because it reached the end of the buffer. */
  lemma ReadStopsOnlyAtEnd(r: Ring, count: nat)
    requires r.Valid() && r.rp != r.wp
    ensures var k, all := |r.ReadData(count)|, Min(count, |r.Contents()|);
            k <= all && (k < all ==> r.rp + k == |r.buf| && r.AfterRead(count).rp == 0)
  {
  }

  /** So two reads in a row return exactly the oldest bytes that were asked for. */
  lemma TwoReadsReturnAll(r: Ring, count: nat)
    requires r.Valid() && r.rp != r.wp
    ensures var first, r1, all := r.ReadData(count), r.AfterRead(count), Min(count, |r.Contents()|);
            && |first| <= all && r1.Valid()
            && if |first| == all then first == r.Contents()[..all]
               else r1.rp != r1.wp && first + r1.ReadData(count - |first|) == r.Contents()[..all]
  {
    ReadStopsOnlyAtEnd(r, count);
    ReadTakesOldest(r, count);
    var first, r1, all := r.ReadData(count), r.AfterRead(count), Min(count, |r.Contents()|);
    if |first| < all {
      SpaceFreeComplementsContents(r1);
      ReadStopsOnlyAtEnd(r1, count - |first|);
      ReadTakesOldest(r1, count - |first|);
      var c := r.Contents();
      assert c[..all] == c[..|first|] + c[|first|..][..all - |first|];
    }
  }

  // ----- writes -----

  /** A write appends a prefix of its data, and a nonempty request makes progress. */
  lemma WriteAppends(r: Ring, data: seq<Byte>)
    requires r.Valid() && r.SpaceFree() > 0
    ensures var k := r.WriteCount(|data|);
            && k <= |data|
            && (data != [] ==> k > 0)
            && r.AfterWrite(data).Valid()
            && |r.AfterWrite(data).buf| == |r.buf|
            && r.AfterWrite(data).Contents() == r.Contents() + data[..k]
  {
    WriteFits(r, |data|);
    hide r.SpaceFree, r.WriteCount;
    if r.rp <= r.wp {
      AppendsUpToEnd(r, data);
    } else {
      AppendsBelowReader(r, data);
    }
  }

  /** The room a write finds, on either side of the wrap. */
  lemma WriteFits(r: Ring, count: nat)
    requires r.Valid() && r.SpaceFree() > 0
    ensures var k := r.WriteCount(count);
            && (count > 0 ==> k > 0) && r.wp + k <= |r.buf|
            && (r.rp > r.wp ==> r.wp + k < r.rp)
            && (r.rp <= r.wp && r.wp + k == |r.buf| ==> r.rp > 0)
  {
    if r.rp != r.wp {
      RingDistance(r.rp, r.wp, |r.buf|);
    }
  }

  /** A write accepts less than was offered and fits only because it reached the end of the buffer. */
  lemma WriteStopsOnlyAtEnd(r: Ring, data: seq<Byte>)
    requires r.Valid() && r.SpaceFree() > 0
    ensures var k, all := r.WriteCount(|data|), Min(|data|, r.SpaceFree());
            k <= all && (k < all ==> r.wp + k == |r.buf| && r.AfterWrite(data).wp == 0)
  {
    if r.rp != r.wp {
      RingDistance(r.rp, r.wp, |r.buf|);
    }
  }

  /** So two writes in a row accept exactly what fits. */
  lemma TwoWritesAcceptAll(r: Ring, data: seq<Byte>)
    requires r.Valid() && r.SpaceFree() > 0
    ensures var k, r1, all := r.WriteCount(|data|), r.AfterWrite(data), Min(|data|, r.SpaceFree());
            && k <= all && r1.Valid()
            && if k == all then r1.Contents() == r.Contents() + data[..all]
               else r1.SpaceFree() > 0 && r1.AfterWrite(data[k..]).Valid()
                    && r1.AfterWrite(data[k..]).Contents() == r.Contents() + data[..all]
  {
    WriteStopsOnlyAtEnd(r, data);
    WriteAppends(r, data);
    SpaceFreeComplementsContents(r);
    var k, r1, all := r.WriteCount(|data|), r.AfterWrite(data), Min(|data|, r.SpaceFree());
    SpaceFreeComplementsContents(r1);
    if k < all {
      var k1 := r1.WriteCount(|data[k..]|);
      hide r.SpaceFree, r.WriteCount, r.Contents, r.AfterWrite;
      WriteStopsOnlyAtEnd(r1, data[k..]);
      WriteAppends(r1, data[k..]);
      assert r1.wp == 0 && r1.wp + k1 < |r1.buf|;
      assert k1 == all - k;
      assert data[..all] == data[..k] + data[k..][..all - k];
      ConcatAssoc(r.Contents(), data[..k], data[k..][..all - k]);
    }
  }

  lemma AppendsUpToEnd(r: Ring, data: seq<Byte>)
    requires r.Valid() && r.SpaceFree() > 0 && r.rp <= r.wp
    requires var k := r.WriteCount(|data|); r.wp + k <= |r.buf| && (r.wp + k == |r.buf| ==> r.rp > 0)
    ensures var r' := r.AfterWrite(data);
            r'.Valid() && |r'.buf| == |r.buf| && r'.Contents() == r.Contents() + data[..r.WriteCount(|data|)]
  {
    hide r.SpaceFree, r.WriteCount;
    var k := r.WriteCount(|data|);
    var r' := r.AfterWrite(data);
    PatchBefore(r.buf, r.wp, data[..k], r.rp);
    assert r.wp + k == |r.buf| ==> r'.buf[r.rp..] + r'.buf[..0] == r'.buf[r.rp..r.wp + k];
  }

  lemma AppendsBelowReader(r: Ring, data: seq<Byte>)
    requires r.Valid() && r.SpaceFree() > 0 && r.wp < r.rp
    requires r.wp + r.WriteCount(|data|) < r.rp
    ensures var r' := r.AfterWrite(data);
            r'.Valid() && |r'.buf| == |r.buf| && r'.Contents() == r.Contents() + data[..r.WriteCount(|data|)]
  {
    hide r.SpaceFree, r.WriteCount;
    var d := data[..r.WriteCount(|data|)];
    PatchBefore(r.buf, r.wp, d, 0);
    PatchAfter(r.buf, r.wp, d, r.rp);
    ConcatAssoc(r.buf[r.rp..], r.buf[..r.wp], d);
    var b' := r.AfterWrite(data).buf;
    assert b'[0..r.wp + |d|] == b'[..r.wp + |d|] && r.buf[0..r.wp] == r.buf[..r.wp];
  }

  lemma IsAfterWrite(r: Ring, data: seq<Byte>, after: Ring)
    requires r.Valid() && r.SpaceFree() > 0 && r.wp + r.WriteCount(|data|) <= |r.buf|
    requires var k := r.WriteCount(|data|);
             after == Ring(r.buf[..r.wp] + data[..k] + r.buf[r.wp + k..], r.rp, r.Wrap(r.wp + k))
    ensures after == r.AfterWrite(data)
  {
  }

  // ----- runs of reads and writes -----

  datatype Op = ReadOp(count: nat) | WriteOp(data: seq<Byte>)

  /** The ring together with everything that was ever accepted and everything that was ever returned. */
  datatype Traffic = Traffic(ring: Ring, accepted: seq<Byte>, returned: seq<Byte>)

  /** One call; a call that would block leaves everything as it is. */
  function Apply(t: Traffic, op: Op): Traffic
    requires t.ring.Valid()
  {
    match op
    case ReadOp(count) =>
      if t.ring.rp == t.ring.wp then t
      else Traffic(t.ring.AfterRead(count), t.accepted, t.returned + t.ring.ReadData(count))
    case WriteOp(data) =>
      if t.ring.SpaceFree() == 0 then t
      else Traffic(t.ring.AfterWrite(data), t.accepted + data[..t.ring.WriteCount(|data|)], t.returned)
  }

  ghost predicate Balanced(t: Traffic, size: nat) {
    && t.ring.Valid()
    && |t.ring.buf| == size
    && t.accepted == t.returned + t.ring.Contents()
  }

  lemma TakeFromTheFront(a: seq<Byte>, b: seq<Byte>, k: nat)
    requires k <= |b|
    ensures a + b == (a + b[..k]) + b[k..]
  {
  }

  lemma ApplyKeepsBalance(t: Traffic, op: Op, size: nat)
    requires Balanced(t, size)
    ensures Balanced(Apply(t, op), size)
  {
    var before := t.ring.Contents();
    SpaceFreeComplementsContents(t.ring);
    match op
    case ReadOp(count) =>
      if t.ring.rp != t.ring.wp {
        ReadTakesOldest(t.ring, count);
        TakeFromTheFront(t.returned, before, |t.ring.ReadData(count)|);
      }
    case WriteOp(data) =>
      if t.ring.SpaceFree() != 0 {
        WriteAppends(t.ring, data);
        ConcatAssoc(t.returned, before, data[..t.ring.WriteCount(|data|)]);
      }
  }

  ghost predicate IsRun(trace: seq<Traffic>, ops: seq<Op>, buf: seq<Byte>)
    requires |buf| >= 1
  {
    && |trace| == |ops| + 1
    && trace[0] == Traffic(Opened(buf), [], [])
    && forall i :: 0 <= i < |ops| ==> trace[i].ring.Valid() && trace[i + 1] == Apply(trace[i], ops[i])
  }

  /** Over every run since an open: what was written is what was read followed by what is stored. */
  lemma {:induction false} RunIsFifo(trace: seq<Traffic>, ops: seq<Op>, buf: seq<Byte>, i: nat)
    requires |buf| >= 1 && IsRun(trace, ops, buf) && i <= |ops|
    ensures Balanced(trace[i], |buf|)
    ensures trace[i].ring.SpaceFree() + |trace[i].ring.Contents()| == |buf| - 1
  {
    if i > 0 {
      RunIsFifo(trace, ops, buf, i - 1);
      ApplyKeepsBalance(trace[i - 1], ops[i - 1], |buf|);
    }
    SpaceFreeComplementsContents(trace[i].ring);
  }

  // ----- the device object -----

  datatype ReadResult = Data(bytes: seq<Byte>) | ReadWouldBlock
  datatype WriteResult = Accepted(count: nat) | WriteWouldBlock

  /** The device fields that scull_p_read and scull_p_write update in place. */
  class Pipe {
    const buffer: array<Byte>
    var rp: nat
    var wp: nat

    ghost predicate Valid()
      reads this
    {
      rp < buffer.Length && wp < buffer.Length
    }

    ghost function View(): Ring
      reads this, buffer
    {
      Ring(buffer[..], rp, wp)
    }

    constructor (size: nat)
      requires size >= 1
      ensures Valid() && fresh(buffer) && buffer.Length == size
      ensures View().Contents() == []
    {
      buffer := new Byte[size];
      rp, wp := 0, 0;
    }

    method SpaceFree() returns (space: int)
      requires Valid()
      ensures space == View().SpaceFree()
    {
      if rp == wp {
        space := buffer.Length - 1;
      } else {
        space := (rp + buffer.Length - wp) % buffer.Length - 1;
      }
    }

    /** One non-waiting pass of scull_p_read. */
    method Read(count: nat) returns (r: ReadResult)
      requires Valid()
      modifies this`rp
      ensures Valid()
      ensures r.ReadWouldBlock? <==> old(View().Contents()) == []
      ensures r.ReadWouldBlock? ==> View() == old(View())
      ensures r.Data? ==> View() == old(View().AfterRead(count))
      ensures r.Data? ==> old(View().Contents()) == r.bytes + View().Contents()
      ensures r.Data? ==> |r.bytes| == old(View().ReadCount(count)) && (count > 0 ==> r.bytes != [])
      ensures r.Data? ==>
        var all := Min(count, |old(View().Contents())|);
        |r.bytes| <= all && (|r.bytes| < all ==> rp == 0)
    {
      ghost var before := View();
      SpaceFreeComplementsContents(before);
      hide before.Contents, before.SpaceFree;
      if rp == wp {
        return ReadWouldBlock;
      }
      ReadSplits(before, count);
      ReadStopsOnlyAtEnd(before, count);
      var c := count;
      if wp > rp {
        c := Min(c, wp - rp);
      } else {
        c := Min(c, buffer.Length - rp);
      }
      var bytes := buffer[rp..rp + c];
      rp := rp + c;
      if rp == buffer.Length {
        rp := 0;
      }
      assert bytes == before.ReadData(count) && View() == before.AfterRead(count);
      r := Data(bytes);
    }

    /** copy_from_user into the buffer. */
    method CopyIn(at: nat, bytes: seq<Byte>)
      requires at + |bytes| <= buffer.Length
      modifies buffer
      ensures buffer[..] == old(buffer[..at]) + bytes + old(buffer[at + |bytes|..])
    {
      for i := 0 to |bytes|
        invariant forall j :: 0 <= j < i ==> buffer[at + j] == bytes[j]
        invariant forall j :: 0 <= j < at || at + i <= j < buffer.Length ==> buffer[j] == old(buffer[j])
      {
        buffer[at + i] := bytes[i];
      }
    }

    /** How many of `want` bytes fit without wrapping. */
    method Room(want: nat) returns (c: nat)
      requires Valid() && View().SpaceFree() > 0
      ensures c == View().WriteCount(want) && wp + c <= buffer.Length
    {
      WriteFits(View(), want);
      var space := SpaceFree();
      c := Min(want, space);
      if wp >= rp {
        c := Min(c, buffer.Length - wp);
      } else {
        c := Min(c, rp - wp - 1);
      }
    }

    /** One non-waiting pass of scull_p_write; it may accept only a prefix of `data`. */
    method Write(data: seq<Byte>) returns (r: WriteResult)
      requires Valid()
      modifies this`wp, buffer
      ensures Valid()
      ensures r.WriteWouldBlock? <==> old(View().SpaceFree()) == 0
      ensures r.WriteWouldBlock? ==> View() == old(View())
      ensures r.Accepted? ==> View() == old(View()).AfterWrite(data)
      ensures r.Accepted? ==> r.count <= |data| && View().Contents() == old(View().Contents()) + data[..r.count]
      ensures r.Accepted? && data != [] ==> r.count > 0
      ensures r.Accepted? ==>
        var all := Min(|data|, old(View().SpaceFree()));
        r.count <= all && (r.count < all ==> wp == 0)
    {
      ghost var before := View();
      hide before.Contents, before.SpaceFree, before.WriteCount;
      var space := SpaceFree();
      if space == 0 {
        return WriteWouldBlock;
      }
      var c := Room(|data|);
      WriteAppends(before, data);
      WriteStopsOnlyAtEnd(before, data);
      CopyIn(wp, data[..c]);
      wp := wp + c;
      if wp == buffer.Length {
        wp := 0;
      }
      IsAfterWrite(before, data, View());
      hide before.AfterWrite;
      r := Accepted(c);
    }
  }
}
