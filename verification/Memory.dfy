/** The simulator's segmented memory: a list of segments, of which the first that covers an address serves it.
    It behaves as a map from addresses to bytes. */
module Memory {
  import opened Words

  type Octet = b: int | 0 <= b < 256

  /** The value of a segment. */
  datatype SegmentValue = SegmentValue(start: Word, size: Word, bytes: seq<Octet>, readonly: bool) {

    /** The end of the segment is computed in 32 bits: one that reaches the end of memory covers nothing. */
    predicate Covers(address: Word) {
      start <= address < Wrap(start + size)
    }

    predicate WellSized() {
      |bytes| == size
    }
  }

  ghost predicate AllWellSized(segs: seq<SegmentValue>) {
    forall k | 0 <= k < |segs| :: segs[k].WellSized()
  }

  /** A covered address lies within the segment's bytes. */
  lemma CoveredInBounds(s: SegmentValue, address: Word)
    requires s.Covers(address)
    ensures 0 <= address - s.start < s.size
  {
  }

  /** A segment covers its addresses if it ends before the end of memory, and otherwise none at all. */
  lemma SegmentCoverage(s: SegmentValue, address: Word)
    ensures s.Covers(address) <==> s.start + s.size < TWO32 && s.start <= address < s.start + s.size
  {
  }

  /** The first segment from number `from` on that covers the address, or -1. */
  function FindFrom(segs: seq<SegmentValue>, address: Word, from: nat): (i: int)
    requires from <= |segs|
    ensures i == -1 || (from <= i < |segs| && segs[i].Covers(address))
    ensures forall k | from <= k < (if i == -1 then |segs| else i) :: !segs[k].Covers(address)
    decreases |segs| - from
  {
    if from == |segs| then -1
    else if segs[from].Covers(address) then from
    else FindFrom(segs, address, from + 1)
  }

  function Find(segs: seq<SegmentValue>, address: Word): (i: int)
    ensures i == -1 || (0 <= i < |segs| && segs[i].Covers(address))
    ensures forall k | 0 <= k < (if i == -1 then |segs| else i) :: !segs[k].Covers(address)
  {
    FindFrom(segs, address, 0)
  }

  predicate Mapped(segs: seq<SegmentValue>, address: Word) {
    Find(segs, address) >= 0
  }

  predicate Writable(segs: seq<SegmentValue>, address: Word) {
    Mapped(segs, address) && !segs[Find(segs, address)].readonly
  }

  /** The segment and the offset that serve a mapped address. */
  function CellOf(segs: seq<SegmentValue>, address: Word): (int, int)
    requires Mapped(segs, address)
  {
    (Find(segs, address), address - segs[Find(segs, address)].start)
  }

  /** Different addresses have different cells, each inside its segment, even when segments overlap. */
  lemma CellsDistinct(segs: seq<SegmentValue>, a: Word, b: Word)
    requires AllWellSized(segs) && Mapped(segs, a) && Mapped(segs, b)
    ensures 0 <= CellOf(segs, a).1 < |segs[CellOf(segs, a).0].bytes|
    ensures CellOf(segs, a) == CellOf(segs, b) ==> a == b
  {
    CoveredInBounds(segs[Find(segs, a)], a);
  }

  /** Unmapped addresses read as zero. */
  function ReadByte(segs: seq<SegmentValue>, address: Word): Octet
    requires AllWellSized(segs)
  {
    var i := Find(segs, address);
    if i < 0 then 0
    else
      CoveredInBounds(segs[i], address);
      segs[i].bytes[address - segs[i].start]
  }

  /** Byte `k` of a segment is at its start plus `k`, if no earlier segment covers that address. */
  lemma ByteOfSegment(segs: seq<SegmentValue>, i: nat, k: nat)
    requires AllWellSized(segs) && i < |segs| && k < segs[i].size && segs[i].start + segs[i].size < TWO32
    requires forall j | 0 <= j < i :: !segs[j].Covers(segs[i].start + k)
    ensures ReadByte(segs, segs[i].start + k) == segs[i].bytes[k]
  {
    SegmentCoverage(segs[i], segs[i].start + k);
  }

  /** Writes to unmapped addresses and to read-only segments do nothing. */
  function WriteByte(segs: seq<SegmentValue>, address: Word, value: Octet): (r: seq<SegmentValue>)
    requires AllWellSized(segs)
    ensures AllWellSized(r)
  {
    var i := Find(segs, address);
    if i < 0 || segs[i].readonly then segs
    else
      CoveredInBounds(segs[i], address);
      segs[i := segs[i].(bytes := segs[i].bytes[address - segs[i].start := value])]
  }

  ghost predicate SameLayout(segs: seq<SegmentValue>, segs': seq<SegmentValue>) {
    && |segs| == |segs'|
    && forall k | 0 <= k < |segs| :: segs[k].start == segs'[k].start && segs[k].size == segs'[k].size
                                     && segs[k].readonly == segs'[k].readonly
  }

  ghost predicate ReadOnlyKept(segs: seq<SegmentValue>, segs': seq<SegmentValue>) {
    |segs| == |segs'| && forall k | 0 <= k < |segs| && segs[k].readonly :: segs[k].bytes == segs'[k].bytes
  }

  lemma LayoutRefl(segs: seq<SegmentValue>)
    ensures SameLayout(segs, segs) && ReadOnlyKept(segs, segs)
  {
  }

  lemma LayoutTrans(a: seq<SegmentValue>, b: seq<SegmentValue>, c: seq<SegmentValue>)
    requires SameLayout(a, b) && ReadOnlyKept(a, b) && SameLayout(b, c) && ReadOnlyKept(b, c)
    ensures SameLayout(a, c) && ReadOnlyKept(a, c)
  {
  }

  lemma {:induction false} FindDependsOnLayout(segs: seq<SegmentValue>, segs': seq<SegmentValue>, address: Word, from: nat)
    requires SameLayout(segs, segs') && from <= |segs|
    ensures FindFrom(segs, address, from) == FindFrom(segs', address, from)
    decreases |segs| - from
  {
    if from < |segs| {
      FindDependsOnLayout(segs, segs', address, from + 1);
    }
  }

  /** A write changes the byte at its own address, if that is writable, and no other byte. */
  lemma WriteChangesOneByte(segs: seq<SegmentValue>, a: Word, value: Octet, b: Word)
    requires AllWellSized(segs)
    ensures var segs' := WriteByte(segs, a, value);
      SameLayout(segs, segs') && ReadOnlyKept(segs, segs')
      && ReadByte(segs', b) == (if a == b && Writable(segs, a) then value else ReadByte(segs, b))
      && Find(segs', b) == Find(segs, b)
  {
    var segs' := WriteByte(segs, a, value);
    FindDependsOnLayout(segs, segs', b, 0);
    if Mapped(segs, a) && Mapped(segs, b) {
      CellsDistinct(segs, a, b);
      CellsDistinct(segs, b, a);
    }
  }

  /** After adding a segment that ends at 2^32 or beyond, no address is mapped that was not before: a write to it
      is lost and it reads as zero. */
  lemma {:induction false} UselessSegment(segs: seq<SegmentValue>, s: SegmentValue, address: Word, from: nat)
    requires s.start + s.size >= TWO32 && from <= |segs|
    ensures FindFrom(segs + [s], address, from) == FindFrom(segs, address, from)
    decreases |segs| - from
  {
    SegmentCoverage(s, address);
    if from < |segs| {
      UselessSegment(segs, s, address, from + 1);
    } else {
      assert FindFrom(segs + [s], address, from + 1) == -1;
    }
  }

  /** For instance, the highest 4096 addresses of an empty memory stay unmapped after they have been added. */
  lemma LastPageUnmapped(address: Word, value: Octet)
    requires 0xFFFF_F000 <= address
    ensures var segs := [SegmentValue(0xFFFF_F000, 0x1000, seq(0x1000, _ => 0), false)];
      AllWellSized(segs) && !Mapped(segs, address)
      && WriteByte(segs, address, value) == segs && ReadByte(WriteByte(segs, address, value), address) == 0
  {
    var s := SegmentValue(0xFFFF_F000, 0x1000, seq(0x1000, _ => 0), false);
    UselessSegment([], s, address, 0);
    assert [] + [s] == [s];
  }

  /** Adding a segment does not change what is found at addresses that were mapped. */
  lemma {:induction false} AddedSegmentBehind(segs: seq<SegmentValue>, s: SegmentValue, address: Word, from: nat)
    requires from <= |segs|
    ensures FindFrom(segs, address, from) >= 0 ==> FindFrom(segs + [s], address, from) == FindFrom(segs, address, from)
    decreases |segs| - from
  {
    if from < |segs| {
      AddedSegmentBehind(segs, s, address, from + 1);
    }
  }

  lemma AddSegmentKeepsReads(segs: seq<SegmentValue>, s: SegmentValue, address: Word)
    requires AllWellSized(segs) && s.WellSized() && Mapped(segs, address)
    ensures AllWellSized(segs + [s]) && ReadByte(segs + [s], address) == ReadByte(segs, address)
    ensures Writable(segs + [s], address) == Writable(segs, address)
  {
    AddedSegmentBehind(segs, s, address, 0);
  }

  // ----- several bytes

  /** Writes the bytes at consecutive addresses modulo 2^32. */
  function WriteBytes(segs: seq<SegmentValue>, address: Word, values: seq<Octet>): (r: seq<SegmentValue>)
    requires AllWellSized(segs)
    ensures AllWellSized(r)
  {
    if values == [] then segs
    else
      var k := |values| - 1;
      WriteByte(WriteBytes(segs, address, values[..k]), Wrap(address + k), values[k])
  }

  /** After writing fewer than 2^32 bytes, every address holds the byte written to it, if it is writable, and
      otherwise what it held before. */
  lemma {:induction false} WriteBytesRead(segs: seq<SegmentValue>, address: Word, values: seq<Octet>, b: Word)
    requires AllWellSized(segs) && |values| <= TWO32
    ensures var segs', k := WriteBytes(segs, address, values), Wrap(b - address);
      SameLayout(segs, segs') && ReadOnlyKept(segs, segs') && Find(segs', b) == Find(segs, b)
      && ReadByte(segs', b) == (if k < |values| && Writable(segs, b) then values[k] else ReadByte(segs, b))
  {
    hide WriteBytes, WriteByte, ReadByte, Find, Wrap, Writable, SameLayout, ReadOnlyKept;
    if values == [] {
      WriteNoBytes(segs, address);
      LayoutRefl(segs);
    } else {
      var k := |values| - 1;
      WriteBytesLast(segs, address, values);
      WriteBytesRead(segs, address, values[..k], b);
      var middle := WriteBytes(segs, address, values[..k]);
      WriteChangesOneByte(middle, Wrap(address + k), values[k], b);
      WritableSame(segs, middle, b);
      LayoutTrans(segs, middle, WriteBytes(segs, address, values));
      OffsetOf(address, b, k);
    }
  }

  lemma WriteNoBytes(segs: seq<SegmentValue>, address: Word)
    requires AllWellSized(segs)
    ensures WriteBytes(segs, address, []) == segs
  {
  }

  lemma WritableSame(segs: seq<SegmentValue>, segs': seq<SegmentValue>, b: Word)
    requires SameLayout(segs, segs') && Find(segs', b) == Find(segs, b)
    ensures Writable(segs', b) == Writable(segs, b)
  {
    hide Find;
  }

  lemma WriteBytesLast(segs: seq<SegmentValue>, address: Word, values: seq<Octet>)
    requires AllWellSized(segs) && values != []
    ensures var k := |values| - 1;
      WriteBytes(segs, address, values) == WriteByte(WriteBytes(segs, address, values[..k]), Wrap(address + k), values[k])
  {
    hide WriteByte, Wrap;
  }

  lemma OffsetOf(address: Word, b: Word, k: nat)
    requires k < TWO32
    ensures Wrap(address + k) == b <==> Wrap(b - address) == k
  {
  }

  // ----- the memory as the simulator holds it

  /** A segment: its bytes are allocated separately. */
  datatype Segment = Segment(start: Word, size: Word, data: array<Octet>, readonly: bool)

  class SegmentedMemory {
    var segments: seq<Segment>

    ghost function DataArrays(): set<object>
      reads this
    {
      set k | 0 <= k < |segments| :: segments[k].data
    }

    ghost predicate Valid()
      reads this, DataArrays()
    {
      && (forall k | 0 <= k < |segments| :: segments[k].data.Length == segments[k].size)
      && (forall j, k | 0 <= j < k < |segments| :: segments[j].data != segments[k].data)
    }

    ghost function Contents(): (c: seq<SegmentValue>)
      requires Valid()
      reads this, DataArrays()
      ensures AllWellSized(c)
    {
      seq(|segments|, k requires 0 <= k < |segments| reads this, DataArrays() =>
        SegmentValue(segments[k].start, segments[k].size, segments[k].data[..], segments[k].readonly))
    }

    constructor ()
      ensures Valid() && Contents() == []
    {
      segments := [];
    }

    method FindSegment(address: Word) returns (i: int)
      requires Valid()
      ensures i == Find(Contents(), address)
    {
      i := 0;
      while i < |segments|
        invariant 0 <= i <= |segments|
        invariant Find(Contents(), address) == FindFrom(Contents(), address, i)
      {
        if address >= segments[i].start && address < Wrap(segments[i].start + segments[i].size) {
          return;
        }
        i := i + 1;
      }
      i := -1;
    }

    method Read(address: Word) returns (b: Octet)
      requires Valid()
      ensures b == ReadByte(Contents(), address)
    {
      var segnum := FindSegment(address);
      if segnum < 0 {
        b := 0;
      } else {
        CoveredInBounds(Contents()[segnum], address);
        b := segments[segnum].data[address - segments[segnum].start];
      }
    }

    method Write(address: Word, value: Octet)
      requires Valid()
      modifies DataArrays()
      ensures Valid() && segments == old(segments)
      ensures Contents() == WriteByte(old(Contents()), address, value)
    {
      var segnum := FindSegment(address);
      if segnum >= 0 {
        CoveredInBounds(Contents()[segnum], address);
        var segment := segments[segnum];
        if !segment.readonly {
          ghost var before := Contents();
          segment.data[address - segment.start] := value;
          var i := segnum;
          forall k | 0 <= k < |segments|
            ensures Contents()[k] == WriteByte(before, address, value)[k]
          {
          }
        }
      }
    }

    /** The new segment is zero-filled and comes after all others. */
    method AddSegment(startAddress: Word, size: Word, readonly: bool)
      requires Valid()
      modifies this
      ensures Valid()
      ensures Contents() == old(Contents()) + [SegmentValue(startAddress, size, seq(size, _ => 0), readonly)]
      ensures |segments| == |old(segments)| + 1 && segments[..|old(segments)|] == old(segments)
      ensures fresh(segments[|old(segments)|].data)
    {
      var data := new Octet[size](_ => 0);
      ghost var before := Contents();
      segments := segments + [Segment(startAddress, size, data, readonly)];
      assert data[..] == seq(size, _ => 0);
      assert Contents()[..|before|] == before;
    }

    /** Loading an image writes it byte by byte; bytes that cannot be written are dropped. */
    method LoadMemory(data: seq<Octet>, offset: Word)
      requires Valid()
      modifies DataArrays()
      ensures Valid() && segments == old(segments)
      ensures Contents() == WriteBytes(old(Contents()), offset, data)
    {
      hide WriteByte, WriteBytes, Contents, Wrap;
      WriteNoBytes(Contents(), offset);
      for i := 0 to |data|
        invariant Valid() && segments == old(segments)
        invariant Contents() == WriteBytes(old(Contents()), offset, data[..i])
      {
        assert data[..i + 1][..i] == data[..i];
        WriteBytesLast(old(Contents()), offset, data[..i + 1]);
        Write(Wrap(offset + i), data[i]);
      }
      assert data[..|data|] == data;
    }
  }
}
