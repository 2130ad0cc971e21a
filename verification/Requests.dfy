/** What whole requests send: by id, after a power cycle, past the end of the record file, and their flags. */
module Requests {
  import opened Machine
  import opened ByteFile
  import opened RingMath
  import opened RecordFile
  import opened ConfigFile
  import opened Store
  import opened Refinement
  import opened TimestampSearch
  import opened Paging
  import opened Fetching

  // ---------- Packet by packet ----------

  /** Packet i of any request that reaches a written slot carries the latest record there, whatever ring size m
      the request pages through; a torn slot is excepted. */
  lemma SlotSends(l: Layout, cv: Converters, n: nat, h: History, torn: bool, file: File, m: nat, f: Reading, i: nat)
    requires l.Valid() && cv.Valid() && 0 < n && WellPlaced(l, n, h) && RecordsRefine(l, n, h, torn, Some(file))
    requires 1 <= f.before <= m && i < f.limit && f.memory.Fits(l)
    requires var slot := Ids(m, f.before, f.limit)[i]; slot <= n && slot <= |h| && !(torn && slot == Slot(n, |h|))
    ensures var slot := Ids(m, f.before, f.limit)[i];
            Pages(l, cv, m, file, f)[i] == Prepared(cv, h[Latest(n, |h|, slot)], i < f.limit - 1)
  {
    hide Prepared, Ids, Image, Offset, SizeOfHousekeeping, ZeroRecord;
    var slot := Ids(m, f.before, f.limit)[i];
    var j := Latest(n, |h|, slot);
    assert Live(n, h, j);
    if j + n == |h| {
      assert Slot(n, j + n) == Slot(n, j);
    }
    assert Holds(l, Some(file), slot, h[j]);
    SlotSize(l, h[j]);
    PagesReadIds(l, cv, m, file, f, i);
    ZeroFits(l);
    ReadHeld(l, file, slot, h[j], ZeroRecord(l));
  }

  /** Every packet is its slot's record read over the memory of the packet before, converted and flagged. */
  lemma {:induction false} PageStep(l: Layout, cv: Converters, n: nat, file: File, f: Reading, i: nat)
    requires 1 <= f.before <= n && i < f.limit
    ensures var sent := Pages(l, cv, n, file, f);
            sent[i] == Prepared(cv, ReadRecord(file, Offset(l, Ids(n, f.before, f.limit)[i]),
                                               if i == 0 then f.memory else sent[i - 1]), i < f.limit - 1)
    decreases i
  {
    hide Prepared, Offset, ReadRecord;
    if i > 0 {
      PageStep(l, cv, n, file, Turn(l, cv, n, file, f), i - 1);
    }
  }

  /** A packet whose slot lies past the end of the file repeats the one before it, converted once more. */
  lemma PastEndSends(l: Layout, cv: Converters, n: nat, file: File, f: Reading, i: nat)
    requires 1 <= f.before <= n && i < f.limit && |file| <= Offset(l, Ids(n, f.before, f.limit)[i])
    ensures Pages(l, cv, n, file, f)[i]
            == Prepared(cv, if i == 0 then f.memory else Pages(l, cv, n, file, f)[i - 1], i < f.limit - 1)
  {
    hide Prepared, Offset, Ids, Pages;
    PageStep(l, cv, n, file, f, i);
    ReadPastEnd(file, Offset(l, Ids(n, f.before, f.limit)[i]),
                if i == 0 then f.memory else Pages(l, cv, n, file, f)[i - 1]);
  }

  lemma ReadPastEnd(f: File, pos: nat, into: Record)
    requires |f| <= pos
    ensures ReadRecord(f, pos, into) == into
  {
    hide TimeFrom, TimeBytes;
    TimeInverse(into.timeOrder);
    SegmentsPastEnd(f, pos + TIME_SIZE, into.segments);
  }

  /** The slot before which a request pages, spelled out: the one named by id or found by time, else the cursor's. */
  ghost predicate PagesBefore(ram: Ram, beforeId: uint16, beforeTime: uint32, b: nat)
    requires ram.Valid()
  {
    && (beforeTime == 0 && 1 <= beforeId <= ram.max ==> b == beforeId)
    && (beforeTime == 0 && !(1 <= beforeId <= ram.max) ==> b == ram.cursor)
    && (beforeTime != 0 && FileId(ram.index, ram.cursor, beforeTime) != 0 ==>
          b == FileId(ram.index, ram.cursor, beforeTime))
    && (beforeTime != 0 && FileId(ram.index, ram.cursor, beforeTime) == 0 ==> b == ram.cursor)
  }

  lemma StartIs(ram: Ram, beforeId: uint16, beforeTime: uint32, b: nat)
    requires ram.Valid() && PagesBefore(ram, beforeId, beforeTime, b)
    ensures StartOf(ram, beforeId, beforeTime) == b
  {
    hide FileId;
    if ram.index != [] {
      AnswerOnCircle(ram.index, ram.cursor, beforeTime);
    } else {
      NoIndex(ram.cursor, beforeTime);
    }
  }

  lemma NoIndex(cursor: nat, t: uint32)
    ensures FileId([], cursor, t) == 0
  {
  }

  /** The reply to any request, on any valid state, as far as its reads and sends succeed: packet i comes from the
      (i + 1)-th slot back from b around the ring, read over the packet before, zeroes at first; `final` is set on all
      but the last of min(limit, capacity) packets. */
  lemma ReplyReads(l: Layout, cv: Converters, s: State, limit: uint16, beforeId: uint16, beforeTime: uint32, good: nat,
                   b: nat, i: nat)
    requires s.Valid() && s.disk.records.Some? && PagesBefore(s.ram, beforeId, beforeTime, b)
    ensures 1 <= b <= s.ram.max
    ensures var count: nat, slot := if limit <= s.ram.max then limit else s.ram.max, (b - 2 - i) % s.ram.max + 1;
            var sent := Fetch(l, cv, s, limit, StartOf(s.ram, beforeId, beforeTime), good).sent;
            && |sent| == Min(count, good)
            && (i < |sent| ==>
                  sent[i] == Prepared(cv, ReadRecord(s.disk.records.value, Offset(l, slot),
                                                     if i == 0 then ZeroRecord(l) else sent[i - 1]), i < count - 1))
  {
    hide Prepared, Offset, ReadRecord, ZeroRecord, FileId, PagesBefore, Ids, Pages;
    StartIs(s.ram, beforeId, beforeTime, b);
    var count := Requested(s.ram, limit);
    if i < count {
      IdAt(s.ram.max, b, count, i);
      PageStep(l, cv, s.ram.max, s.disk.records.value, Reading(b, count, ZeroRecord(l)), i);
    }
  }

  /** The zero-initialised record memory is all zeroes, byte by byte. */
  lemma ZeroImage(l: Layout)
    ensures forall k :: 0 <= k < |Image(ZeroRecord(l))| ==> Image(ZeroRecord(l))[k] == 0
  {
    hide Flatten, ZeroSegments;
    ZeroWords();
    ZeroFlat(l.sizes);
  }

  lemma ZeroWords()
    ensures Bytes16(0) == [0, 0] && Bytes32(0) == [0, 0, 0, 0]
  {
    assert Word32([0, 0, 0, 0]) == 0;
    Word32Determines();
    assert Word16(Bytes16(0)) == 0;
  }

  lemma {:induction false} ZeroFlat(sizes: seq<nat>)
    ensures forall k :: 0 <= k < |Flatten(ZeroSegments(sizes))| ==> Flatten(ZeroSegments(sizes))[k] == 0
    decreases |sizes|
  {
    if sizes != [] {
      ZeroFlat(sizes[1..]);
    }
  }

  /** A limit of the capacity or beyond, on a full ring without a torn slot, sends all records, newest first. */
  lemma WholeRing(l: Layout, cv: Converters, n: nat, past: Past, h: History, s: State, limit: uint16)
    requires 0 < n <= CAPACITY_LIMIT && Refines(l, n, past, h, false, s) && s.ram.loaded && cv.Valid() && s.Valid()
    requires |h| >= n && limit >= n
    ensures Fetch(l, cv, s, limit, s.ram.cursor, limit) == Reply(Success, RecordsFor(cv, h, |h|, n))
  {
    hide Refines, Pages, ZeroRecord, RecordsFor, WellPlaced, RecordsRefine;
    LoadedFacts(l, n, past, h, false, s);
    RetainedFacts(l, n, past, h, false, s);
    ZeroFits(l);
    LoopSends(l, cv, n, h, false, s.disk.records.value, Reading(Slot(n, |h|), n, ZeroRecord(l)), |h|);
  }

  /** Slots that no write has reached lie past the end of the record file. */
  lemma UnreachedPastEnd(l: Layout, n: nat, h: History, torn: bool, records: Option<File>, slot: nat)
    requires n > 0 && WithinExtent(l, n, h, torn, records) && records.Some? && slot > Extent(n, h, torn)
    ensures |records.value| <= Offset(l, slot)
  {
    OffsetMonotone(l, Extent(n, h, torn) + 1, slot);
  }

  // ---------- Requests by id ----------

  /** The record number before which a request by id pages: that of the id's slot; the next one to be written for
      the cursor's slot, for id 0 and for ids beyond the capacity. */
  function Asked(n: nat, k: nat, id: nat): (top: nat)
    requires n > 0 && (id <= k || id > n || id == Slot(n, k))
  {
    if id == 0 || id > n || id == Slot(n, k) then k else Latest(n, k, id)
  }

  /** A request by any id of a written slot sends the `limit` records written before the one it names, newest
      first; id 0, the cursor and an id beyond the capacity ask for the most recent ones. */
  lemma PageById(l: Layout, cv: Converters, n: nat, past: Past, h: History, torn: bool, s: State, id: uint16,
                 limit: uint16)
    requires 0 < n <= CAPACITY_LIMIT && Refines(l, n, past, h, torn, s) && s.ram.loaded && cv.Valid() && s.Valid()
    requires id <= |h| || id > n || id == Slot(n, |h|)
    requires var top := Asked(n, |h|, id);
             0 < limit <= top && |h| + (if torn then 1 else 0) <= top - limit + n
    ensures Fetch(l, cv, s, limit, StartOf(s.ram, id, 0), limit)
            == Reply(Success, RecordsFor(cv, h, Asked(n, |h|, id), limit))
  {
    hide Fetch, Retained, ConfigRefines;
    PageSends(l, cv, n, past, h, torn, s, limit, Asked(n, |h|, id));
  }

  // ---------- Requests between a power cycle and the next populate ----------

  /** A request that does not name a slot. */
  predicate MostRecent(beforeId: uint16, beforeTime: uint32) {
    beforeTime != 0 || beforeId == 0 || beforeId > CAPACITY_LIMIT
  }

  /** Before the lazy load that follows a power cycle, a request for the most recent records, or by time, starts
      at the newest one exactly when the ring has the default capacity and has just wrapped. */
  lemma UnloadedStart(l: Layout, n: nat, past: Past, h: History, torn: bool, s: State, beforeId: uint16,
                      beforeTime: uint32)
    requires 0 < n <= CAPACITY_LIMIT && Refines(l, n, past, h, torn, s) && h != []
    requires MostRecent(beforeId, beforeTime)
    ensures s.Valid()
    ensures var ram := PowerCycle(s).ram;
            Ids(ram.max, StartOf(ram, beforeId, beforeTime), 1)[0] == Slot(n, |h| - 1)
            <==> n == CAPACITY_LIMIT && |h| % n == 0
  {
    hide Retained, ConfigRefines;
    RefinesValid(l, n, past, h, torn, s);
    SlotNext(n, |h| - 1);
    SlotIsMod(n, |h|);
  }

  /** Where a request starts while nothing has been loaded: at the slot it names, else at slot 1. */
  function UnloadedBefore(beforeId: uint16, beforeTime: uint32): (b: nat)
    ensures 1 <= b <= 20160
  {
    if beforeTime != 0 || beforeId == 0 || beforeId > 20160 then 1 else beforeId
  }

  lemma UnloadedReply(l: Layout, cv: Converters, s: State, limit: uint16, beforeId: uint16, beforeTime: uint32)
    requires s.Valid() && s.disk.records.Some?
    ensures var t, count := PowerCycle(s), Requested(Boot(), limit);
            Fetch(l, cv, t, limit, StartOf(t.ram, beforeId, beforeTime), count)
            == Reply(Success, Pages(l, cv, CAPACITY_LIMIT, s.disk.records.value,
                                    Reading(UnloadedBefore(beforeId, beforeTime), count, ZeroRecord(l))))
  {
    hide Pages, ZeroRecord;
  }

  /** Paging back through all 20160 slots, over the record file of a smaller ring. */
  lemma UnloadedPages(l: Layout, cv: Converters, n: nat, h: History, torn: bool, file: File, b: nat, count: nat, i: nat)
    requires l.Valid() && cv.Valid() && 0 < n && WellPlaced(l, n, h) && RecordsRefine(l, n, h, torn, Some(file))
    requires WithinExtent(l, n, h, torn, Some(file)) && i < count <= CAPACITY_LIMIT && 1 <= b <= CAPACITY_LIMIT
    ensures var sent := Pages(l, cv, CAPACITY_LIMIT, file, Reading(b, count, ZeroRecord(l)));
            var slot := (b - 2 - i) % CAPACITY_LIMIT + 1;
            && (slot <= n && slot <= |h| && !(torn && slot == Slot(n, |h|)) ==>
                  sent[i] == Prepared(cv, h[Latest(n, |h|, slot)], i < count - 1))
            && (slot > Extent(n, h, torn) ==>
                  sent[i] == Prepared(cv, if i == 0 then ZeroRecord(l) else sent[i - 1], i < count - 1))
  {
    hide *;
    var slot, f := (b - 2 - i) % CAPACITY_LIMIT + 1, Reading(b, count, ZeroRecord(l));
    IdAt(CAPACITY_LIMIT, b, count, i);
    ZeroFits(l);
    if slot <= n && slot <= |h| && !(torn && slot == Slot(n, |h|)) {
      SlotSends(l, cv, n, h, torn, file, CAPACITY_LIMIT, f, i);
    }
    if slot > Extent(n, h, torn) {
      UnreachedPastEnd(l, n, h, torn, Some(file), slot);
      PastEndSends(l, cv, CAPACITY_LIMIT, file, f, i);
    }
  }

  /** What any such request sends: packet i is the latest record of the (i + 1)-th slot back around a ring of 20160;
      where no write has reached that slot, zeroes or the previous packet again. */
  lemma UnloadedSends(l: Layout, cv: Converters, n: nat, past: Past, h: History, torn: bool, s: State,
                      limit: uint16, beforeId: uint16, beforeTime: uint32, i: nat)
    requires 0 < n <= CAPACITY_LIMIT && Refines(l, n, past, h, torn, s) && h != [] && cv.Valid()
    requires i < Requested(Boot(), limit)
    ensures s.Valid()
    ensures var t, slot := PowerCycle(s), (UnloadedBefore(beforeId, beforeTime) - 2 - i) % 20160 + 1;
            var count := Requested(Boot(), limit);
            var reply := Fetch(l, cv, t, limit, StartOf(t.ram, beforeId, beforeTime), count);
            && reply.result == Success && |reply.sent| == count
            && (slot <= n && slot <= |h| && !(torn && slot == Slot(n, |h|)) ==>
                  reply.sent[i] == Prepared(cv, h[Latest(n, |h|, slot)], i < count - 1))
            && (slot > Extent(n, h, torn) ==>
                  reply.sent[i] == Prepared(cv, if i == 0 then ZeroRecord(l) else reply.sent[i - 1], i < count - 1))
  {
    hide Fetch, Pages, Prepared, ZeroRecord, StartOf, Refines, Extent, Slot, UnloadedBefore;
    RefinesValid(l, n, past, h, torn, s);
    RetainedFacts(l, n, past, h, torn, s);
    UnloadedReply(l, cv, s, limit, beforeId, beforeTime);
    UnloadedPages(l, cv, n, h, torn, s.disk.records.value, UnloadedBefore(beforeId, beforeTime),
                  Requested(Boot(), limit), i);
  }

  /** A request that names a slot of the ring and does not page past slot 1 is answered as if the configuration had
      been loaded. */
  lemma UnloadedPageById(l: Layout, cv: Converters, n: nat, past: Past, h: History, torn: bool, s: State, id: uint16,
                         limit: uint16, good: nat)
    requires 0 < n <= CAPACITY_LIMIT && Refines(l, n, past, h, torn, s) && s.ram.loaded && s.Valid()
    requires limit < id <= n
    ensures Fetch(l, cv, PowerCycle(s), limit, StartOf(PowerCycle(s).ram, id, 0), good)
            == Fetch(l, cv, s, limit, StartOf(s.ram, id, 0), good)
  {
    hide Refines, Pages, ZeroRecord;
    LoadedFacts(l, n, past, h, torn, s);
    if s.disk.records.Some? {
      SamePages(l, cv, n, CAPACITY_LIMIT, s.disk.records.value, Reading(id, limit, ZeroRecord(l)));
    }
  }

  /** Without paging past slot 1 the size of the ring does not matter. */
  lemma {:induction false} SamePages(l: Layout, cv: Converters, n: nat, m: nat, file: File, f: Reading)
    requires f.limit < f.before <= n <= m
    ensures Pages(l, cv, n, file, f) == Pages(l, cv, m, file, f)
    decreases f.limit
  {
    hide Prepared, ReadRecord, Offset;
    if f.limit > 0 {
      SamePages(l, cv, n, m, file, Turn(l, cv, n, file, f));
    }
  }

  // ---------- The `final` byte ----------

  lemma {:induction false} PagesFit(l: Layout, cv: Converters, n: nat, file: File, f: Reading, i: nat)
    requires cv.Valid() && 1 <= f.before <= n && i < f.limit && f.memory.Fits(l)
    ensures Pages(l, cv, n, file, f)[i].Fits(l)
    decreases i
  {
    hide Turn, Record.Fits;
    TurnFits(l, cv, n, file, f);
    if i > 0 {
      PagesFit(l, cv, n, file, Turn(l, cv, n, file, f), i - 1);
    }
  }

  /** Every packet but the last announces that more follow. */
  lemma {:induction false} MoreFollow(l: Layout, cv: Converters, n: nat, file: File, f: Reading, i: nat)
    requires 1 <= f.before <= n && i < f.limit - 1
    ensures Pages(l, cv, n, file, f)[i].timeOrder.final == 1
    decreases i
  {
    hide Offset, ReadRecord;
    if i > 0 {
      MoreFollow(l, cv, n, file, Turn(l, cv, n, file, f), i - 1);
    }
  }

  /** In a ring that is not full, a request that goes on past the oldest record continues from the top of the
      ring, through slots no write has reached. */
  lemma BeyondOldest(n: nat, k: nat, torn: bool, count: nat, i: nat)
    requires 0 < k <= i < count && count + (if torn then 1 else 0) <= n
    ensures Ids(n, Slot(n, k), count)[i] > k + (if torn then 1 else 0)
  {
    IdAt(n, Slot(n, k), count, i);
    ModUnique(k - 1 - i, n, -1, n + k - 1 - i);
  }

  /** The last packet of a request that ends on a held record. */
  lemma LastHeld(l: Layout, cv: Converters, n: nat, h: History, torn: bool, file: File, f: Reading)
    requires l.Valid() && cv.Valid() && 0 < n && WellPlaced(l, n, h) && RecordsRefine(l, n, h, torn, Some(file))
    requires f.before == Slot(n, |h|) && f.memory.Fits(l)
    requires 0 < f.limit <= |h| && f.limit + (if torn then 1 else 0) <= n
    ensures Pages(l, cv, n, file, f)[f.limit - 1] == Prepared(cv, h[|h| - f.limit], false)
  {
    hide *;
    var j := |h| - f.limit;
    IdSlot(n, |h|, f.limit, f.limit - 1);
    SlotAtMost(n, j);
    if torn {
      SlotDistinct(n, j, |h|);
    }
    LatestUnique(n, |h|, j);
    SlotSends(l, cv, n, h, torn, file, n, f, f.limit - 1);
  }

  lemma LastBeyond(l: Layout, cv: Converters, n: nat, h: History, torn: bool, file: File, f: Reading)
    requires 0 < n && WithinExtent(l, n, h, torn, Some(file)) && h != []
    requires f.before == Slot(n, |h|) && |h| < f.limit && f.limit + (if torn then 1 else 0) <= n
    ensures Pages(l, cv, n, file, f)[f.limit - 1].timeOrder.final == 1
  {
    hide Pages, WithinExtent, Offset, Slot;
    BeyondOldest(n, |h|, torn, f.limit, f.limit - 1);
    UnreachedPastEnd(l, n, h, torn, Some(file), Ids(n, f.before, f.limit)[f.limit - 1]);
    PastEndSends(l, cv, n, file, f, f.limit - 1);
    MoreFollow(l, cv, n, file, f, f.limit - 2);
  }

  /** The `final` byte of a most-recent request of any size, when stored flags are 0: set on every packet but the
      last, and on the last one too exactly when more packets were asked for than records are held. */
  lemma FinalFlags(l: Layout, cv: Converters, n: nat, past: Past, h: History, torn: bool, s: State, limit: uint16,
                   i: nat)
    requires 0 < n <= CAPACITY_LIMIT && Refines(l, n, past, h, torn, s) && s.ram.loaded && cv.Valid() && s.Valid()
    requires h != [] && i < Requested(s.ram, limit) && Requested(s.ram, limit) + (if torn then 1 else 0) <= n
    requires forall j :: 0 <= j < |h| ==> h[j].timeOrder.final == 0
    ensures var count := Requested(s.ram, limit);
            var sent := Fetch(l, cv, s, limit, s.ram.cursor, count).sent;
            && |sent| == count && |sent[i].segments| == SEGMENTS
            && Packet(sent[i])[2] == if i < count - 1 || count > |h| then 1 else 0
  {
    hide ConfigRefines, RecordsRefine, WellPlaced, Pages, ZeroRecord, Offset, Slot, Packet, Extent;
    var count, file := Requested(s.ram, limit), s.disk.records.value;
    var f := Reading(s.ram.cursor, count, ZeroRecord(l));
    ZeroFits(l);
    LoadedFacts(l, n, past, h, torn, s);
    assert Fetch(l, cv, s, limit, s.ram.cursor, count).sent == Pages(l, cv, n, file, f);
    PagesFit(l, cv, n, file, f, i);
    FinalByte(Pages(l, cv, n, file, f)[i], 0);
    if i < count - 1 {
      MoreFollow(l, cv, n, file, f, i);
    } else if count <= |h| {
      LastHeld(l, cv, n, h, torn, file, f);
    } else {
      LastBeyond(l, cv, n, h, torn, file, f);
    }
  }
}
