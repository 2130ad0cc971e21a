/** The housekeeping record and its fixed-size slot in the record file. */
module RecordFile {
  import opened Machine
  import opened ByteFile

  /** The persisted sub-structs that follow the time header, in file order. The structs are declared by
      the device drivers, which are not part of this model; only their sizes matter. */
  const SEGMENTS := 8
  const ADCS := 0
  const ATHENA := 1
  const EPS := 2
  const UHF := 3
  const SBAND := 4
  const HYPERION := 5
  const CHARON := 6
  const DFGM := 7

  /** sizeof(hk_time_and_order), a packed struct. */
  const TIME_SIZE := 7

  function Sum(sizes: seq<nat>): nat {
    if sizes == [] then 0 else sizes[0] + Sum(sizes[1..])
  }

  datatype Layout = Layout(sizes: seq<nat>)
  {
    /** No sub-struct is empty, and a packet's size still fits the source's uint16. */
    ghost predicate Valid() {
      && |sizes| == SEGMENTS
      && (forall i :: 0 <= i < SEGMENTS ==> sizes[i] > 0)
      && TIME_SIZE + Sum(sizes) + 2 < 0x1_0000
    }
  }

  datatype TimeOrder = TimeOrder(final: uint8, unixTime: uint32, dataPosition: uint16)

  datatype Record = Record(timeOrder: TimeOrder, segments: seq<seq<uint8>>)
  {
    ghost predicate Fits(l: Layout) {
      |segments| == |l.sizes| && forall i :: 0 <= i < |segments| ==> |segments[i]| == l.sizes[i]
    }

    function Time(): uint32 {
      timeOrder.unixTime
    }

    function At(position: uint16): Record {
      this.(timeOrder := timeOrder.(dataPosition := position))
    }
  }

  function TimeBytes(t: TimeOrder): (b: seq<uint8>)
    ensures |b| == TIME_SIZE && b[0] == t.final
  {
    [t.final] + Bytes32(t.unixTime) + Bytes16(t.dataPosition)
  }

  function TimeFrom(b: seq<uint8>): TimeOrder
    requires |b| == TIME_SIZE
  {
    TimeOrder(b[0], Word32(b[1..5]), Word16(b[5..7]))
  }

  lemma TimeInverse(t: TimeOrder)
    ensures TimeFrom(TimeBytes(t)) == t
  {
    assert TimeBytes(t)[1..5] == Bytes32(t.unixTime);
    assert TimeBytes(t)[5..7] == Bytes16(t.dataPosition);
  }

  function Flatten(segments: seq<seq<uint8>>): seq<uint8> {
    if segments == [] then [] else segments[0] + Flatten(segments[1..])
  }

  lemma {:induction false} FlattenLast(segments: seq<seq<uint8>>, last: seq<uint8>)
    ensures Flatten(segments + [last]) == Flatten(segments) + last
    decreases |segments|
  {
    if segments != [] {
      assert (segments + [last])[1..] == segments[1..] + [last];
      FlattenLast(segments[1..], last);
    }
  }

  lemma {:induction false} FlattenSize(segments: seq<seq<uint8>>, sizes: seq<nat>)
    requires |segments| == |sizes| && forall i :: 0 <= i < |sizes| ==> |segments[i]| == sizes[i]
    ensures |Flatten(segments)| == Sum(sizes)
    decreases |sizes|
  {
    if sizes != [] {
      FlattenSize(segments[1..], sizes[1..]);
    }
  }

  /** get_size_of_housekeeping: the sum of all nine sizes, in the source's uint16. */
  function SizeOfHousekeeping(l: Layout): uint16 {
    (TIME_SIZE + Sum(l.sizes)) % 0x1_0000
  }

  /** The bytes of a record in file order. */
  function Image(r: Record): seq<uint8> {
    TimeBytes(r.timeOrder) + Flatten(r.segments)
  }

  /** One read per segment, each over the memory it had. */
  function ReadSegments(f: File, pos: nat, into: seq<seq<uint8>>): (segments: seq<seq<uint8>>)
    ensures |segments| == |into| && forall i :: 0 <= i < |into| ==> |segments[i]| == |into[i]|
    decreases |into|
  {
    if into == [] then []
    else [ReadInto(f, pos, into[0])] + ReadSegments(f, pos + |into[0]|, into[1..])
  }

  /** The record after the nine reads that start at `pos`, over the memory `into`. */
  function ReadRecord(f: File, pos: nat, into: Record): (r: Record) {
    Record(TimeFrom(ReadInto(f, pos, TimeBytes(into.timeOrder))), ReadSegments(f, pos + TIME_SIZE, into.segments))
  }

  /** The byte position of a slot: (slot - 1) times the record size (OffsetIsProduct). */
  function Offset(l: Layout, slot: nat): nat
    requires slot >= 1
  {
    if slot == 1 then 0 else Offset(l, slot - 1) + SizeOfHousekeeping(l)
  }

  /** The file holds record r in the given slot. */
  ghost predicate Holds(l: Layout, f: Option<File>, slot: nat, r: Record)
    requires slot >= 1
  {
    f.Some? && HasAt(f.value, Offset(l, slot), Image(r))
  }

  /** The uint16 sum does not wrap: a slot is exactly as large as the nine writes. */
  lemma SlotSize(l: Layout, r: Record)
    requires l.Valid() && r.Fits(l)
    ensures |Image(r)| == SizeOfHousekeeping(l) == TIME_SIZE + Sum(l.sizes)
  {
    FlattenSize(r.segments, l.sizes);
  }

  lemma {:induction false} OffsetIsProduct(l: Layout, slot: nat)
    requires slot >= 1
    ensures Offset(l, slot) == (slot - 1) * SizeOfHousekeeping(l)
  {
    if slot > 1 {
      OffsetIsProduct(l, slot - 1);
      var n: int := SizeOfHousekeeping(l);
      assert (slot - 2) * n + n == (slot - 1) * n;
    }
  }

  /** Slot positions fit the source's 32-bit signed seek offset for every allowed slot. */
  lemma {:induction false} OffsetFitsInt32(l: Layout, slot: nat)
    requires 1 <= slot <= 20160
    ensures Offset(l, slot) + SizeOfHousekeeping(l) <= slot * 0xFFFF < 0x8000_0000
  {
    if slot > 1 {
      OffsetFitsInt32(l, slot - 1);
    }
  }

  /** Different slots occupy disjoint byte ranges. */
  lemma {:induction false} SlotsDisjoint(l: Layout, s: nat, t: nat)
    requires 1 <= s < t
    ensures Offset(l, s) + SizeOfHousekeeping(l) <= Offset(l, t)
    decreases t
  {
    if s < t - 1 {
      SlotsDisjoint(l, s, t - 1);
    }
  }

  lemma OffsetMonotone(l: Layout, s: nat, t: nat)
    requires 1 <= s <= t
    ensures Offset(l, s) <= Offset(l, t)
  {
    if s < t {
      SlotsDisjoint(l, s, t);
    }
  }

  lemma {:induction false} ReadFlat(f: File, pos: nat, segments: seq<seq<uint8>>, into: seq<seq<uint8>>)
    requires |into| == |segments| && forall i :: 0 <= i < |into| ==> |into[i]| == |segments[i]|
    requires HasAt(f, pos, Flatten(segments))
    ensures ReadSegments(f, pos, into) == segments
    decreases |segments|
  {
    if segments != [] {
      HasSplit(f, pos, segments[0], Flatten(segments[1..]));
      ReadHad(f, pos, segments[0], into[0]);
      ReadFlat(f, pos + |segments[0]|, segments[1..], into[1..]);
    }
  }

  /** Reading a slot that holds r gives r, whatever the memory held before. */
  lemma ReadHeld(l: Layout, f: File, slot: nat, r: Record, into: Record)
    requires slot >= 1 && r.Fits(l) && into.Fits(l)
    requires Holds(l, Some(f), slot, r)
    ensures ReadRecord(f, Offset(l, slot), into) == r
  {
    var pos := Offset(l, slot);
    HasSplit(f, pos, TimeBytes(r.timeOrder), Flatten(r.segments));
    ReadHad(f, pos, TimeBytes(r.timeOrder), TimeBytes(into.timeOrder));
    TimeInverse(r.timeOrder);
    ReadFlat(f, pos + TIME_SIZE, r.segments, into.segments);
  }

  /** Writing a record fills exactly its slot. */
  lemma WriteHolds(l: Layout, f: File, slot: nat, r: Record)
    requires slot >= 1
    ensures Holds(l, Some(WriteAt(f, Offset(l, slot), Image(r))), slot, r)
  {
    HasWritten(f, Offset(l, slot), Image(r));
  }

  /** A write of at most one slot's bytes leaves every other slot as it was. */
  lemma WriteFrame(l: Layout, f: File, slot: nat, data: seq<uint8>, other: nat, r: Record)
    requires l.Valid() && slot >= 1 && other >= 1 && slot != other
    requires |data| <= SizeOfHousekeeping(l) && r.Fits(l)
    requires Holds(l, Some(f), other, r)
    ensures Holds(l, Some(WriteAt(f, Offset(l, slot), data)), other, r)
  {
    SlotSize(l, r);
    if slot < other {
      SlotsDisjoint(l, slot, other);
    } else {
      SlotsDisjoint(l, other, slot);
    }
    HasFrame(f, Offset(l, slot), data, Offset(l, other), Image(r));
  }

  lemma {:induction false} SegmentsSame(f: File, g: File, pos: nat, into: seq<seq<uint8>>)
    requires pos + |Flatten(into)| <= |f| && pos + |Flatten(into)| <= |g|
    requires forall i :: pos <= i < pos + |Flatten(into)| ==> f[i] == g[i]
    ensures ReadSegments(g, pos, into) == ReadSegments(f, pos, into)
    decreases |into|
  {
    if into != [] {
      assert ReadInto(g, pos, into[0]) == ReadInto(f, pos, into[0]);
      SegmentsSame(f, g, pos + |into[0]|, into[1..]);
    }
  }

  /** Where two files agree, so do reads. */
  lemma SameRead(l: Layout, f: File, g: File, pos: nat, into: Record)
    requires pos + |Image(into)| <= |f| && pos + |Image(into)| <= |g|
    requires forall i :: pos <= i < pos + |Image(into)| ==> f[i] == g[i]
    ensures ReadRecord(g, pos, into) == ReadRecord(f, pos, into)
  {
    hide TimeFrom, Flatten, TimeBytes, ReadSegments;
    assert ReadInto(g, pos, TimeBytes(into.timeOrder)) == ReadInto(f, pos, TimeBytes(into.timeOrder));
    SegmentsSame(f, g, pos + TIME_SIZE, into.segments);
  }

  /** A write of at most one slot's bytes leaves the bytes of every other slot. */
  lemma OtherSlotBytes(l: Layout, f: File, slot: nat, data: seq<uint8>, other: nat)
    requires slot >= 1 && other >= 1 && other != slot && |data| <= SizeOfHousekeeping(l)
    requires Offset(l, other) + SizeOfHousekeeping(l) <= |f|
    ensures var g, pos, size := WriteAt(f, Offset(l, slot), data), Offset(l, other), SizeOfHousekeeping(l);
            pos + size <= |g| && forall i :: pos <= i < pos + size ==> f[i] == g[i]
  {
    hide SizeOfHousekeeping, Offset;
    if slot < other {
      SlotsDisjoint(l, slot, other);
    } else {
      SlotsDisjoint(l, other, slot);
    }
  }

  /** Round trip and frame of the record file, for all slots and records: reading the slot written gives
      the record with all its segments, and every other slot in the file reads as before. */
  lemma RecordFileRoundTrip(l: Layout, f: File, slot: nat, r: Record, other: nat, into: Record)
    requires l.Valid() && slot >= 1 && other >= 1 && r.Fits(l) && into.Fits(l)
    requires other != slot && Offset(l, other) + SizeOfHousekeeping(l) <= |f|
    ensures var g := WriteAt(f, Offset(l, slot), Image(r));
            && ReadRecord(g, Offset(l, slot), into) == r
            && ReadRecord(g, Offset(l, other), into) == ReadRecord(f, Offset(l, other), into)
  {
    hide *;
    var g := WriteAt(f, Offset(l, slot), Image(r));
    SlotSize(l, r);
    SlotSize(l, into);
    WriteHolds(l, f, slot, r);
    ReadHeld(l, g, slot, r, into);
    OtherSlotBytes(l, f, slot, Image(r), other);
    SameRead(l, f, g, Offset(l, other), into);
  }

  /** A read of a record at `pos`, whole or cut short by the end of the file: seven bytes of header, then segment k
      behind the ones before it, each over the memory it had. */
  lemma ReadExactly(f: File, pos: nat, into: Record, k: nat)
    requires k < |into.segments|
    ensures var r, b := ReadRecord(f, pos, into), ReadInto(f, pos, TimeBytes(into.timeOrder));
            && |b| == 7 && |r.segments| == |into.segments|
            && r.timeOrder == TimeOrder(b[0], Word32(b[1..5]), Word16(b[5..7]))
            && r.segments[k] == ReadInto(f, pos + 7 + |Flatten(into.segments[..k])|, into.segments[k])
  {
    hide ReadInto, Flatten, TimeBytes, Word32, Word16;
    ReadSegmentsAt(f, pos + TIME_SIZE, into.segments, k);
  }

  // ---------- Records through an open file ----------

  /** The bytes of the first k segments. */
  function Front(segments: seq<seq<uint8>>, k: nat): seq<uint8>
    requires k <= |segments|
  {
    Flatten(segments[..k])
  }

  lemma FrontNext(segments: seq<seq<uint8>>, k: nat)
    requires k < |segments|
    ensures Front(segments, k + 1) == Front(segments, k) + segments[k]
  {
    FlattenLast(segments[..k], segments[k]);
    assert segments[..k + 1] == segments[..k] + [segments[k]];
  }

  /** The nine writes so far: the header and k segments, from `start` in a file that was `before`. */
  ghost predicate WrittenTo(f: OpenFile, before: File, start: nat, r: Record, k: nat)
    requires k <= |r.segments|
    reads f
  {
    && f.bytes == WriteAt(before, start, TimeBytes(r.timeOrder) + Front(r.segments, k))
    && f.pos == start + TIME_SIZE + |Front(r.segments, k)|
  }

  /** The write of segment k. */
  method WriteSegment(f: OpenFile, ghost before: File, ghost start: nat, r: Record, k: nat)
    requires k < |r.segments| && WrittenTo(f, before, start, r, k)
    modifies f
    ensures WrittenTo(f, before, start, r, k + 1)
  {
    hide WriteAt, Flatten, TimeBytes;
    FrontNext(r.segments, k);
    var done, next := TimeBytes(r.timeOrder) + Front(r.segments, k), r.segments[k];
    WritesJoin(before, start, done, next);
    assert done + next == TimeBytes(r.timeOrder) + Front(r.segments, k + 1);
    f.Write(next);
  }

  lemma {:induction false} ReadSegmentsAt(f: File, pos: nat, into: seq<seq<uint8>>, k: nat)
    requires k < |into|
    ensures ReadSegments(f, pos, into)[k] == ReadInto(f, pos + |Front(into, k)|, into[k])
    decreases k
  {
    hide ReadInto, Front;
    if k > 0 {
      ReadSegmentsAt(f, pos + |into[0]|, into[1..], k - 1);
      FrontAfterFirst(into, k);
    } else {
      FrontEmpty(into);
    }
  }

  lemma FrontAfterFirst(segments: seq<seq<uint8>>, k: nat)
    requires 0 < k <= |segments|
    ensures Front(segments, k) == segments[0] + Front(segments[1..], k - 1)
  {
    assert segments[..k][1..] == segments[1..][..k - 1];
  }

  /** The read of segment k over the memory it had. */
  method ReadSegment(f: OpenFile, ghost start: nat, into: seq<seq<uint8>>, k: nat) returns (segment: seq<uint8>)
    requires k < |into| && SamePosition(f.bytes, f.pos, start + |Front(into, k)|)
    modifies f`pos
    ensures SamePosition(f.bytes, f.pos, start + |Front(into, k + 1)|)
    ensures segment == ReadSegments(f.bytes, start, into)[k]
  {
    hide ReadInto, Flatten, ReadSegments;
    FrontNext(into, k);
    ReadSegmentsAt(f.bytes, start, into, k);
    ReadAtSamePosition(f.bytes, f.pos, start + |Front(into, k)|, into[k]);
    segment := f.Read(into[k]);
  }

  lemma FrontEmpty(segments: seq<seq<uint8>>)
    ensures Front(segments, 0) == []
  {
  }

  lemma FourSegments(segments: seq<seq<uint8>>)
    requires |segments| == 8
    ensures Front(segments, 4) == segments[0] + segments[1] + segments[2] + segments[3]
  {
    hide Front, Flatten;
    FrontEmpty(segments);
    FrontNext(segments, 0);
    FrontNext(segments, 1);
    FrontNext(segments, 2);
    FrontNext(segments, 3);
    assert Front(segments, 1) == segments[0];
  }

  /** Segments in file order, spelled out. */
  lemma SevenSegments(segments: seq<seq<uint8>>)
    requires |segments| == 8
    ensures Flatten(segments[..7]) == segments[0] + segments[1] + segments[2] + segments[3] + segments[4] + segments[5]
                                      + segments[6]
    ensures Flatten(segments) == Flatten(segments[..7]) + segments[7]
  {
    hide Front, Flatten;
    FourSegments(segments);
    FrontNext(segments, 4);
    FrontNext(segments, 5);
    FrontNext(segments, 6);
    FrontNext(segments, 7);
    FrontIs(segments, 7);
    FrontIs(segments, 8);
    assert segments[..8] == segments;
  }

  lemma FrontIs(segments: seq<seq<uint8>>, k: nat)
    requires k <= |segments|
    ensures Front(segments, k) == Flatten(segments[..k])
  {
  }

  /** The bytes of a record in the file: `final`, time and position, then the eight segments in order. */
  lemma RecordBytes(r: Record)
    requires |r.segments| == 8
    ensures Image(r) == [r.timeOrder.final] + Bytes32(r.timeOrder.unixTime) + Bytes16(r.timeOrder.dataPosition)
                        + r.segments[0] + r.segments[1] + r.segments[2] + r.segments[3]
                        + r.segments[4] + r.segments[5] + r.segments[6] + r.segments[7]
  {
    hide Flatten;
    SevenSegments(r.segments);
  }

  /** The nine writes, in file order. */
  method WriteFields(f: OpenFile, r: Record)
    requires |r.segments| == SEGMENTS
    modifies f
    ensures f.bytes == WriteAt(old(f.bytes), old(f.pos), Image(r))
  {
    hide WriteAt, Flatten, TimeBytes;
    ghost var before, start := f.bytes, f.pos;
    FrontEmpty(r.segments);
    assert TimeBytes(r.timeOrder) == TimeBytes(r.timeOrder) + Front(r.segments, 0);
    f.Write(TimeBytes(r.timeOrder));
    WriteSegment(f, before, start, r, ADCS);
    WriteSegment(f, before, start, r, ATHENA);
    WriteSegment(f, before, start, r, EPS);
    WriteSegment(f, before, start, r, UHF);
    WriteSegment(f, before, start, r, SBAND);
    WriteSegment(f, before, start, r, HYPERION);
    WriteSegment(f, before, start, r, CHARON);
    WriteSegment(f, before, start, r, DFGM);
    assert r.segments[..SEGMENTS] == r.segments;
  }

  lemma PositionIsSame(f: File, pos: nat)
    ensures SamePosition(f, pos, pos)
  {
  }

  /** The nine reads, in file order, over the memory `into`. */
  method ReadFields(f: OpenFile, into: Record) returns (r: Record)
    requires |into.segments| == SEGMENTS
    modifies f`pos
    ensures r == ReadRecord(f.bytes, old(f.pos), into)
  {
    hide ReadInto, TimeBytes, TimeFrom, ReadSegments, SamePosition, Front;
    PositionIsSame(f.bytes, f.pos);
    ReadAtSamePosition(f.bytes, f.pos, f.pos, TimeBytes(into.timeOrder));
    ghost var start := f.pos + TIME_SIZE;
    var time := f.Read(TimeBytes(into.timeOrder));
    FrontEmpty(into.segments);
    var s0 := ReadSegment(f, start, into.segments, ADCS);
    var s1 := ReadSegment(f, start, into.segments, ATHENA);
    var s2 := ReadSegment(f, start, into.segments, EPS);
    var s3 := ReadSegment(f, start, into.segments, UHF);
    var s4 := ReadSegment(f, start, into.segments, SBAND);
    var s5 := ReadSegment(f, start, into.segments, HYPERION);
    var s6 := ReadSegment(f, start, into.segments, CHARON);
    var s7 := ReadSegment(f, start, into.segments, DFGM);
    r := Record(TimeFrom(time), [s0, s1, s2, s3, s4, s5, s6, s7]);
    assert r.segments == ReadSegments(f.bytes, start, into.segments);
  }
}
