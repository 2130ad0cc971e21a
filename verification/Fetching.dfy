/** Historic requests: the fetch loop and what it sends of the history. */
module Fetching {
  import opened Machine
  import opened ByteFile
  import opened RingMath
  import opened RecordFile
  import opened ConfigFile
  import opened Store
  import opened Refinement
  import opened TimestampSearch
  import opened Paging

  /** What a request sends: the record memory behind each packet (its bytes are Packet of it). */
  datatype Reply = Reply(result: Result, sent: seq<Record>)

  /** The loop's variables: next page start, packets still to send, and the record memory. */
  datatype Reading = Reading(before: nat, limit: nat, memory: Record)

  /** One turn of the loop over a given record file; the new memory is what the turn sends. */
  function Turn(l: Layout, cv: Converters, n: nat, file: File, f: Reading): (g: Reading)
    requires 1 <= f.before <= n && f.limit > 0
    ensures g.before == Before(n, f.before) && g.limit == f.limit - 1
  {
    var id := Before(n, f.before);
    Reading(id, f.limit - 1, Prepared(cv, ReadRecord(file, Offset(l, id), f.memory), f.limit > 1))
  }

  /** All that the loop sends when nothing fails. */
  function Pages(l: Layout, cv: Converters, n: nat, file: File, f: Reading): (sent: seq<Record>)
    requires 1 <= f.before <= n
    ensures |sent| == f.limit
    decreases f.limit
  {
    if f.limit == 0 then []
    else
      var g := Turn(l, cv, n, file, f);
      [g.memory] + Pages(l, cv, n, file, g)
  }

  function ZeroSegments(sizes: seq<nat>): (segments: seq<seq<uint8>>)
    ensures |segments| == |sizes| && forall i :: 0 <= i < |sizes| ==> |segments[i]| == sizes[i]
  {
    if sizes == [] then [] else [Repeat(0, sizes[0])] + ZeroSegments(sizes[1..])
  }

  /** The zero-initialised record memory. */
  function ZeroRecord(l: Layout): Record {
    Record(TimeOrder(0, 0, 0), ZeroSegments(l.sizes))
  }

  lemma ZeroFits(l: Layout)
    ensures ZeroRecord(l).Fits(l)
  {
  }

  /** The slot a request pages back from: by time, by id, or else the cursor. */
  function StartOf(ram: Ram, beforeId: uint16, beforeTime: uint32): (b: nat)
    requires ram.Valid()
    ensures 1 <= b <= ram.max
  {
    var id := if beforeTime != 0 then FileId(ram.index, ram.cursor, beforeTime) else beforeId;
    if id == 0 || id > ram.max then ram.cursor else id
  }

  /** The fetch loop for `count` packets before slot `start`, with nothing running in between, when the first
      `good` turns succeed: their record could be read and their packet sent. */
  function TransmitSpec(l: Layout, cv: Converters, n: nat, records: Option<File>, start: nat, count: nat,
                        good: nat): (r: Reply)
    requires 1 <= start <= n
    ensures r.result == Success <==> count == 0 || (records.Some? && count <= good)
    ensures r.result == Success ==> |r.sent| == count
    ensures r.result == Failure ==> |r.sent| == if records.None? then 0 else good
  {
    if count == 0 then Reply(Success, [])
    else if records.None? then Reply(Failure, [])
    else
      var sent := Pages(l, cv, n, records.value, Reading(start, count, ZeroRecord(l)));
      if good < count then Reply(Failure, sent[..good]) else Reply(Success, sent)
  }

  /** How many packets a request asks for: the limit, cut to the capacity. */
  function Requested(ram: Ram, limit: uint16): nat {
    if limit > ram.max then ram.max else limit
  }

  /** fetch_historic_hk_and_transmit from a start slot: exactly min(limit, capacity) packets go out, or the
      request fails part-way. */
  function Fetch(l: Layout, cv: Converters, s: State, limit: uint16, start: nat, good: nat): (r: Reply)
    requires s.Valid() && 1 <= start <= s.ram.max
    ensures var count := Requested(s.ram, limit);
            && (r.result == Success <==> count == 0 || (s.disk.records.Some? && count <= good))
            && (r.result == Success ==> |r.sent| == count)
            && (r.result == Failure ==> |r.sent| < count)
    ensures |r.sent| <= limit && |r.sent| <= s.ram.max
    ensures r.result == Success ==> |r.sent| == limit || |r.sent| == s.ram.max
  {
    TransmitSpec(l, cv, s.ram.max, s.disk.records, start, Requested(s.ram, limit), good)
  }

  // ---------- Packets against the file ----------

  lemma {:induction false} SegmentsInRange(f: File, pos: nat, a: seq<seq<uint8>>, b: seq<seq<uint8>>)
    requires |a| == |b| && forall i :: 0 <= i < |a| ==> |a[i]| == |b[i]|
    requires pos + |Flatten(a)| <= |f|
    ensures ReadSegments(f, pos, a) == ReadSegments(f, pos, b)
    decreases |a|
  {
    if a != [] {
      assert ReadInto(f, pos, a[0]) == ReadInto(f, pos, b[0]);
      SegmentsInRange(f, pos + |a[0]|, a[1..], b[1..]);
    }
  }

  /** Where the file is long enough, the record memory plays no part. */
  lemma ReadInRange(l: Layout, f: File, slot: nat, a: Record, b: Record)
    requires l.Valid() && slot >= 1 && a.Fits(l) && b.Fits(l)
    requires Offset(l, slot) + SizeOfHousekeeping(l) <= |f|
    ensures ReadRecord(f, Offset(l, slot), a) == ReadRecord(f, Offset(l, slot), b)
  {
    hide Offset, SizeOfHousekeeping, Flatten, ReadSegments;
    var pos := Offset(l, slot);
    SlotSize(l, a);
    assert ReadInto(f, pos, TimeBytes(a.timeOrder)) == ReadInto(f, pos, TimeBytes(b.timeOrder));
    SegmentsInRange(f, pos + TIME_SIZE, a.segments, b.segments);
  }

  lemma TurnFits(l: Layout, cv: Converters, n: nat, file: File, f: Reading)
    requires cv.Valid() && 1 <= f.before <= n && f.limit > 0 && f.memory.Fits(l)
    ensures Turn(l, cv, n, file, f).memory.Fits(l)
  {
    hide Prepared;
    var id := Before(n, f.before);
    ConvertFits(l, cv, ReadRecord(file, Offset(l, id), f.memory), f.limit > 1);
  }

  /** Over any record file: packet k carries the record in the k-th id's slot, if the file reaches that far. */
  lemma {:induction false} PagesReadIds(l: Layout, cv: Converters, n: nat, file: File, f: Reading, k: nat)
    requires l.Valid() && cv.Valid() && 1 <= f.before <= n && k < f.limit && f.memory.Fits(l)
    requires Offset(l, Ids(n, f.before, f.limit)[k]) + SizeOfHousekeeping(l) <= |file|
    ensures Pages(l, cv, n, file, f)[k]
            == Prepared(cv, ReadRecord(file, Offset(l, Ids(n, f.before, f.limit)[k]), ZeroRecord(l)), f.limit - k > 1)
    decreases k
  {
    hide Prepared, ReadRecord, Offset, SizeOfHousekeeping, ZeroRecord;
    if k == 0 {
      ZeroFits(l);
      ReadInRange(l, file, Before(n, f.before), f.memory, ZeroRecord(l));
    } else {
      TurnFits(l, cv, n, file, f);
      PagesReadIds(l, cv, n, file, Turn(l, cv, n, file, f), k - 1);
    }
  }

  lemma {:induction false} SegmentsPastEnd(f: File, pos: nat, into: seq<seq<uint8>>)
    requires |f| <= pos
    ensures ReadSegments(f, pos, into) == into
    decreases |into|
  {
    if into != [] {
      SegmentsPastEnd(f, pos + |into[0]|, into[1..]);
    }
  }

  /** At a slot past the end of the file a turn sends the record memory it has, converted once more. */
  lemma PastEndRepeats(l: Layout, cv: Converters, n: nat, file: File, f: Reading)
    requires 1 <= f.before <= n && f.limit > 0 && |file| <= Offset(l, Before(n, f.before))
    ensures Turn(l, cv, n, file, f).memory == Prepared(cv, f.memory, f.limit > 1)
  {
    hide Prepared, Offset, TimeFrom, TimeBytes;
    TimeInverse(f.memory.timeOrder);
    SegmentsPastEnd(file, Offset(l, Before(n, f.before)) + TIME_SIZE, f.memory.segments);
  }

  // ---------- Packets against the history ----------

  /** The record memories sent for the `count` records before record number `top`, newest first; all but the last
      announce that more follow. */
  ghost function RecordsFor(cv: Converters, h: History, top: nat, count: nat): (ps: seq<Record>)
    requires count <= top <= |h|
    ensures |ps| == count
    ensures forall i :: 0 <= i < count ==> ps[i] == Prepared(cv, h[top - 1 - i], i < count - 1)
    decreases count
  {
    if count == 0 then []
    else [Prepared(cv, h[top - 1], count > 1)] + RecordsFor(cv, h, top - 1, count - 1)
  }

  /** Paging back from the slot of record j reaches the slot of record j - 1. */
  lemma BeforeSlot(n: nat, j: nat)
    requires n > 0 && j > 0
    ensures Before(n, Slot(n, j)) == Slot(n, j - 1)
  {
    SlotNext(n, j - 1);
  }

  /** The i-th id of a request that starts at the slot of record k is the slot of record k - 1 - i. */
  lemma {:induction false} IdSlot(n: nat, k: nat, count: nat, i: nat)
    requires n > 0 && i < count && i < k
    ensures Ids(n, Slot(n, k), count)[i] == Slot(n, k - 1 - i)
    decreases i
  {
    BeforeSlot(n, k);
    if i > 0 {
      IdSlot(n, k - 1, count - 1, i - 1);
    }
  }

  /** A turn that starts at record `top` sends record top - 1, if the file still holds it. */
  lemma TurnSends(l: Layout, cv: Converters, n: nat, h: History, file: File, f: Reading, top: nat)
    requires cv.Valid() && n > 0 && WellPlaced(l, n, h)
    requires 0 < top <= |h| && f.before == Slot(n, top) && f.limit > 0 && f.memory.Fits(l)
    requires Holds(l, Some(file), Slot(n, top - 1), h[top - 1])
    ensures var g := Turn(l, cv, n, file, f);
            g.before == Slot(n, top - 1) && g.memory == Prepared(cv, h[top - 1], f.limit > 1) && g.memory.Fits(l)
  {
    BeforeSlot(n, top);
    ReadHeld(l, file, Slot(n, top - 1), h[top - 1], f.memory);
    ConvertFits(l, cv, h[top - 1], f.limit > 1);
  }

  /** The loop sends exactly the held records before `top`, newest first. */
  lemma {:induction false} LoopSends(l: Layout, cv: Converters, n: nat, h: History, torn: bool,
                                     file: File, f: Reading, top: nat)
    requires cv.Valid() && n > 0 && WellPlaced(l, n, h) && RecordsRefine(l, n, h, torn, Some(file))
    requires f.memory.Fits(l) && f.limit <= top <= |h| && f.before == Slot(n, top)
    requires |h| + (if torn then 1 else 0) <= top - f.limit + n
    ensures Pages(l, cv, n, file, f) == RecordsFor(cv, h, top, f.limit)
    decreases f.limit
  {
    hide Turn, Prepared, WellPlaced, Holds;
    if f.limit > 0 {
      assert Live(n, h, top - 1);
      TurnSends(l, cv, n, h, file, f, top);
      LoopSends(l, cv, n, h, torn, file, Turn(l, cv, n, file, f), top - 1);
    }
  }

  /** A page that starts at the slot of record number `top` (the cursor's, for the most recent). */
  lemma PageSends(l: Layout, cv: Converters, n: nat, past: Past, h: History, torn: bool, s: State,
                  limit: uint16, top: nat)
    requires 0 < n <= CAPACITY_LIMIT && Refines(l, n, past, h, torn, s) && s.ram.loaded && cv.Valid() && s.Valid()
    requires 0 < limit <= top <= |h| && |h| + (if torn then 1 else 0) <= top - limit + n
    ensures Fetch(l, cv, s, limit, Slot(n, top), limit)
            == Reply(Success, RecordsFor(cv, h, top, limit))
  {
    hide ConfigRefines, HeaderOf, ValidConfig, Pages;
    assert Live(n, h, top - 1);
    assert Holds(l, s.disk.records, Slot(n, top - 1), h[top - 1]);
    LoopSends(l, cv, n, h, torn, s.disk.records.value, Reading(Slot(n, top), limit, ZeroRecord(l)), top);
  }

  /** Newest-first order: a most-recent request for at most the records held sends the last `limit`
      history records in reverse, across the wrap and without a gap. */
  lemma NewestFirst(l: Layout, cv: Converters, n: nat, past: Past, h: History, torn: bool, s: State, limit: uint16)
    requires 0 < n <= CAPACITY_LIMIT && Refines(l, n, past, h, torn, s) && s.ram.loaded && cv.Valid() && s.Valid()
    requires 0 < limit <= |h| && limit + (if torn then 1 else 0) <= n
    ensures var reply := Fetch(l, cv, s, limit, s.ram.cursor, limit);
            && reply.result == Success && |reply.sent| == limit
            && forall i :: 0 <= i < limit ==>
                 reply.sent[i] == Prepared(cv, h[|h| - 1 - i], i < limit - 1)
  {
    PageSends(l, cv, n, past, h, torn, s, limit, |h|);
  }
}
