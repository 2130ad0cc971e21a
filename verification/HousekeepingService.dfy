/** The housekeeping service itself: the globals of the source as fields, its functions as methods, each
    proved to take exactly the step that the store's specification describes. */
module HousekeepingService {
  import opened Machine
  import opened ByteFile
  import opened RecordFile
  import opened ConfigFile
  import opened Store
  import opened TimestampSearch
  import opened Paging
  import opened Fetching

  /** pvPortMalloc: a fresh array that holds whatever the memory held. */
  method Allocate(n: nat, junk: Junk) returns (a: array<uint32>)
    ensures fresh(a) && a.Length == n
    ensures forall i :: 0 <= i < n ==> a[i] == junk(i)
  {
    a := new uint32[n];
    for k := 0 to n
      invariant forall i :: 0 <= i < k ==> a[i] == junk(i)
    {
      a[k] := junk(k);
    }
  }

  /** memcpy into a packet buffer. */
  method CopyTo(buffer: array<uint8>, at: nat, data: seq<uint8>)
    requires at + |data| <= buffer.Length
    modifies buffer
    ensures buffer[..at + |data|] == old(buffer[..at]) + data
  {
    for k := 0 to |data|
      invariant buffer[..at] == old(buffer[..at])
      invariant forall i :: 0 <= i < k ==> buffer[at + i] == data[i]
    {
      buffer[at + k] := data[k];
    }
    assert buffer[..at + |data|] == buffer[..at] + buffer[at..at + |data|];
    assert buffer[at..at + |data|] == data;
  }

  /** One of the copies at the running `used` position: segment k behind the ones before it. */
  method CopySegment(buffer: array<uint8>, r: Record, k: nat, used: nat) returns (usedAfter: nat)
    requires k < DFGM < |r.segments| && used == TIME_SIZE + |Front(r.segments, k)|
    requires 2 + TIME_SIZE + |Flatten(r.segments[..DFGM])| <= buffer.Length
    requires 2 + used <= buffer.Length
    requires buffer[..2 + used] == [GET_HK, STATUS_OK] + TimeBytes(r.timeOrder) + Front(r.segments, k)
    modifies buffer
    ensures usedAfter == TIME_SIZE + |Front(r.segments, k + 1)| && 2 + usedAfter <= buffer.Length
    ensures buffer[..2 + usedAfter] == [GET_HK, STATUS_OK] + TimeBytes(r.timeOrder) + Front(r.segments, k + 1)
  {
    hide Flatten, TimeBytes;
    FrontNext(r.segments, k);
    FrontWithin(r.segments, k + 1, DFGM);
    CopyTo(buffer, 2 + used, r.segments[k]);
    usedAfter := used + |r.segments[k]|;
  }

  lemma {:induction false} FrontWithin(segments: seq<seq<uint8>>, k: nat, m: nat)
    requires k <= m <= |segments|
    ensures |Front(segments, k)| <= |Front(segments, m)|
    decreases m
  {
    if k < m {
      FrontNext(segments, m - 1);
      FrontWithin(segments, k, m - 1);
    }
  }

  /** Lays the record out in a buffer of the size the source requests; every copy stays inside it. */
  method BuildPacket(l: Layout, r: Record) returns (data: seq<uint8>)
    requires l.Valid() && r.Fits(l)
    ensures data == Packet(r)
  {
    hide Flatten, TimeBytes, SizeOfHousekeeping, Image;
    SlotSize(l, r);
    FrontNext(r.segments, DFGM);
    ImageLength(r);
    var buffer := new uint8[SizeOfHousekeeping(l) + 2];
    CopyTo(buffer, 0, [GET_HK]);
    CopyTo(buffer, 1, [STATUS_OK]);
    assert buffer[..2] == [GET_HK, STATUS_OK];
    FrontEmpty(r.segments);
    CopyTo(buffer, 2, TimeBytes(r.timeOrder));
    var used := TIME_SIZE;
    used := CopySegment(buffer, r, ADCS, used);
    used := CopySegment(buffer, r, ATHENA, used);
    used := CopySegment(buffer, r, EPS, used);
    used := CopySegment(buffer, r, UHF, used);
    used := CopySegment(buffer, r, SBAND, used);
    used := CopySegment(buffer, r, HYPERION, used);
    used := CopySegment(buffer, r, CHARON, used);
    data := buffer[..used + 2];
  }

  lemma ImageLength(r: Record)
    requires |r.segments| == SEGMENTS
    ensures |Image(r)| == TIME_SIZE + |Flatten(r.segments[..DFGM])| + |r.segments[DFGM]|
  {
    FrontNext(r.segments, DFGM);
    assert r.segments[..SEGMENTS] == r.segments;
  }

  /** What becomes of a record write: it succeeds, the file cannot be opened, or an error is reported after some
      bytes have landed in the slot. */
  datatype WriteFault = NoFault | NotOpened | TornWrite(landed: seq<uint8>)
  {
    function Landed(): Option<seq<uint8>> {
      if TornWrite? then Some(landed) else None
    }
  }

  /** Packets as bytes are the laid-out records, one for one. */
  ghost predicate LaidOut(packets: seq<seq<uint8>>, sent: seq<Record>) {
    && |packets| == |sent|
    && forall i :: 0 <= i < |packets| ==> |sent[i].segments| == SEGMENTS && packets[i] == Packet(sent[i])
  }

  lemma LaidOutNext(packets: seq<seq<uint8>>, sent: seq<Record>, packet: seq<uint8>, r: Record)
    requires LaidOut(packets, sent) && |r.segments| == SEGMENTS && packet == Packet(r)
    ensures LaidOut(packets + [packet], sent + [r])
  {
  }

  lemma LaidOutLength(packets: seq<seq<uint8>>, sent: seq<Record>)
    ensures LaidOut(packets, sent) ==> |packets| == |sent|
    ensures LaidOut([], [])
  {
  }

  /** The loop has sent `sent` and has the rest, from f on, before it. */
  ghost predicate SentSoFar(l: Layout, cv: Converters, n: nat, records: Option<File>, start: nat, count: nat,
                            f: Reading, sent: seq<Record>)
    requires 1 <= start <= n && 1 <= f.before <= n
  {
    && |sent| + f.limit == count
    && match records
       case None => sent == []
       case Some(file) =>
         Pages(l, cv, n, file, Reading(start, count, ZeroRecord(l))) == sent + Pages(l, cv, n, file, f)
  }

  lemma SentNothing(l: Layout, cv: Converters, n: nat, records: Option<File>, start: nat, count: nat)
    requires 1 <= start <= n
    ensures SentSoFar(l, cv, n, records, start, count, Reading(start, count, ZeroRecord(l)), [])
  {
    hide Pages, ZeroRecord;
  }

  lemma SentOneMore(l: Layout, cv: Converters, n: nat, records: Option<File>, start: nat, count: nat, f: Reading,
                    sent: seq<Record>)
    requires 1 <= start <= n && 1 <= f.before <= n && f.limit > 0 && records.Some?
    requires SentSoFar(l, cv, n, records, start, count, f, sent)
    ensures var g := Turn(l, cv, n, records.value, f);
            && SentSoFar(l, cv, n, records, start, count, g, sent + [g.memory])
            && g == Reading(Before(n, f.before), f.limit - 1,
                            Prepared(cv, ReadRecord(records.value, Offset(l, Before(n, f.before)), f.memory),
                                     f.limit > 1))
  {
    hide Prepared, ReadRecord, Offset, ZeroRecord, Before;
    var g := Turn(l, cv, n, records.value, f);
    Prepended(sent, [g.memory], Pages(l, cv, n, records.value, g));
  }

  /** Stopping early is the specified failure; running out of turns is the specified success. */
  lemma SentInAll(l: Layout, cv: Converters, n: nat, records: Option<File>, start: nat, count: nat, f: Reading,
                  sent: seq<Record>, good: nat)
    requires 1 <= start <= n && 1 <= f.before <= n
    requires SentSoFar(l, cv, n, records, start, count, f, sent) && |sent| <= good
    ensures f.limit > 0 && (records.None? || |sent| == good) ==>
              TransmitSpec(l, cv, n, records, start, count, good) == Reply(Failure, sent)
    ensures f.limit == 0 ==> TransmitSpec(l, cv, n, records, start, count, good) == Reply(Success, sent)
  {
    hide ZeroRecord, Turn;
  }

  class Service {
    const layout: Layout

    // RAM
    var maxFiles: uint16
    var currentFile: uint16
    var timestamps: array?<uint32>
    var arraySize: uint16
    var configLoaded: bool
    var tempTime: uint32

    // Disk
    var hkFile: Option<File>
    var hkConfig: Option<File>

    /** The index as a value: [] for the null pointer. */
    ghost function Index(): seq<uint32>
      reads this, timestamps
    {
      if timestamps == null then [] else timestamps[..]
    }

    /** The array and its recorded size agree. */
    ghost predicate Shape()
      reads this, timestamps
    {
      if timestamps == null then arraySize == 0 else timestamps.Length == arraySize + 1 && arraySize > 0
    }

    ghost function Abs(): State
      reads this, timestamps
    {
      State(Ram(maxFiles, currentFile, Index(), configLoaded, tempTime), Disk(hkFile, hkConfig))
    }

    ghost predicate Valid()
      reads this, timestamps
    {
      layout.Valid() && Shape() && Abs().Valid()
    }

    constructor (l: Layout)
      requires l.Valid()
      ensures Valid() && Abs() == Blank() && layout == l
      ensures maxFiles == 20160 && currentFile == 1 && timestamps == null && !configLoaded && tempTime == 1000
      ensures hkFile.None? && hkConfig.None?
    {
      layout := l;
      maxFiles, currentFile, timestamps, arraySize := CAPACITY_LIMIT, 1, null, 0;
      configLoaded, tempTime := false, 1000;
      hkFile, hkConfig := None, None;
    }

    /** Power is lost and returns, at any moment at which the configuration file is whole. */
    method PowerLoss()
      requires layout.Valid() && (hkConfig.Some? ==> ValidConfig(hkConfig.value))
      modifies this
      ensures Valid() && Abs() == PowerCycle(old(Abs()))
      ensures maxFiles == 20160 && currentFile == 1 && timestamps == null && !configLoaded && tempTime == 1000
      ensures hkFile == old(hkFile) && hkConfig == old(hkConfig)
    {
      maxFiles, currentFile, timestamps, arraySize := CAPACITY_LIMIT, 1, null, 0;
      configLoaded, tempTime := false, 1000;
    }

    method GetFileIdFromTimestamp(timestamp: uint32) returns (id: uint16)
      requires Valid()
      ensures id == FileId(Index(), currentFile, timestamp)
    {
      hide ValidConfig, HeaderOf, Probe, Decide;
      if timestamps == null {
        return 0;
      }
      var left: uint32, right: uint32, offset: uint32 := 0, 0, 0;
      if timestamps[currentFile] == 0 {
        if currentFile == 1 {
          return 0;
        }
        left := 1;
        right := currentFile - 1;
      } else {
        left := currentFile;
        right := left + arraySize - 1;
        offset := currentFile - 1;
      }
      left := Bisect(left, right, offset, timestamp);
      var position := left - offset;
      id := DecideAt(position, timestamp);
    }

    /** The bisection loop, in unsigned 32-bit arithmetic. */
    method Bisect(first: uint32, last: uint32, offset: uint32, timestamp: uint32) returns (left: uint32)
      requires Shape() && Bounds(first, last).Within(Index(), offset) && last <= 2 * CAPACITY_LIMIT
      ensures left == Probe(Index(), Bounds(first, last), offset, timestamp)
    {
      hide Probe;
      left := first;
      var right: uint32 := last;
      while left < right
        invariant Bounds(left, right).Within(Index(), offset) && right <= last
        invariant Probe(Index(), Bounds(first, last), offset, timestamp)
               == Probe(Index(), Bounds(left, right), offset, timestamp)
        decreases right - left
      {
        ProbeStep(Index(), Bounds(left, right), offset, timestamp);
        var sum: uint32 := left + right;
        var middle := sum / 2;
        if timestamps[middle - offset] < timestamp {
          left := middle + 1;
        } else {
          right := middle;
        }
      }
      ProbeEnd(Index(), Bounds(left, right), offset, timestamp);
    }

    /** The checks around the position the loop ends on. */
    method DecideAt(position: uint32, timestamp: uint32) returns (id: uint16)
      requires Shape() && 1 <= position <= arraySize
      ensures id == Decide(Index(), position, timestamp)
    {
      if position > 1 {
        if Minus32(timestamp, timestamps[position - 1]) <= THRESHOLD {
          return position - 1;
        }
        if position != arraySize {
          if Minus32(timestamps[position], timestamp) <= THRESHOLD {
            return position;
          }
        } else {
          if timestamp > timestamps[position] && Minus32(timestamp, timestamps[position]) <= THRESHOLD {
            return position;
          } else if Minus32(timestamps[position], timestamp) <= THRESHOLD {
            return position;
          }
        }
      } else {
        if Minus32(timestamps[position], timestamp) <= THRESHOLD {
          return position;
        }
      }
      return 0;
    }

    /** `allocOk` tells whether the allocation, if one is needed, succeeds. */
    method DynamicTimestampArrayHandler(numItems: uint16, allocOk: bool, junk: Junk) returns (r: Result)
      requires Shape() && numItems <= CAPACITY_LIMIT
      modifies `timestamps, `arraySize
      ensures Shape()
      ensures r == Failure <==> numItems != 0 && numItems != old(arraySize) && !allocOk
      ensures r == Success ==> Index() == Resized(old(Index()), numItems, junk)
      ensures r == Success ==> arraySize == numItems && (timestamps == null <==> numItems == 0)
      ensures r == Success && numItems > 0 ==>
                forall i :: 0 <= i <= numItems ==>
                  timestamps[i] == if numItems == old(arraySize) then old(Index())[i]
                                   else if i > old(arraySize) then 0
                                   else if i < old(arraySize) < numItems then old(Index())[i]
                                   else junk(i)
      ensures r == Failure ==> Index() == old(Index())
      ensures timestamps == old(timestamps) || timestamps == null || fresh(timestamps)
    {
      hide Resized;
      ResizedSame(Index(), numItems, junk);
      if numItems == 0 {
        timestamps := null;
        arraySize := 0;
        return Success;
      }
      if numItems != arraySize {
        if !allocOk {
          return Failure;
        }
        var tmp := Allocate(numItems + 1, junk);
        ghost var index: seq<uint32>, copied: nat := Index(), 0;
        if timestamps != null && arraySize < numItems {
          for k := 0 to arraySize
            invariant timestamps != null && timestamps.Length == arraySize + 1 && timestamps[..] == index
            invariant forall i :: 0 <= i < k ==> tmp[i] == index[i]
            invariant forall i :: k <= i <= numItems ==> tmp[i] == junk(i)
          {
            tmp[k] := timestamps[k];
          }
          copied := arraySize;
        }
        var i := arraySize + 1;
        while i <= numItems
          invariant arraySize == old(arraySize) < i
          invariant forall k :: 0 <= k < copied ==> tmp[k] == index[k]
          invariant forall k :: copied <= k <= numItems && k <= arraySize ==> tmp[k] == junk(k)
          invariant forall k :: arraySize < k < i && k <= numItems ==> tmp[k] == 0
        {
          tmp[i] := 0;
          i := i + 1;
        }
        ResizedIs(index, numItems, junk, tmp[..]);
        timestamps := tmp;
        arraySize := numItems;
      }
      return Success;
    }

    /** `storable` tells whether the file can be opened or created. */
    method StoreConfig(rewriteAll: bool, storable: bool) returns (r: Result)
      requires Shape() && (rewriteAll || hkConfig.None? || currentFile < |Index()|)
      modifies `hkConfig
      ensures r == Success <==> storable
      ensures hkConfig == if storable
                          then Some(Stored(old(hkConfig), Header(maxFiles, currentFile, tempTime), Index(), rewriteAll))
                          else old(hkConfig)
    {
      hide WriteAt, WordBytes, HeaderBytes;
      if !storable {
        return Failure;
      }
      var exist := hkConfig.Some?;
      var fout := new OpenFile(if exist then hkConfig.value else []);
      WriteHeader(fout, Header(maxFiles, currentFile, tempTime));
      if !exist || rewriteAll {
        if timestamps != null {
          WriteWords(fout, timestamps);
        } else {
          NothingWritten(fout.bytes, fout.pos);
        }
      } else {
        fout.SeekCur(4 * currentFile);
        fout.Write(Bytes32(timestamps[currentFile]));
      }
      hkConfig := Some(fout.bytes);
      return Success;
    }

    /** `fault` tells what goes wrong with an existing file: it cannot be opened, or the allocation, if one is
        needed, fails. */
    method LoadConfig(fault: LoadFault, junk: Junk) returns (r: Result)
      requires Valid()
      modifies this, timestamps
      ensures Shape()
      ensures r == Failure <==> old(hkConfig).None? || fault.ConfigNotOpened? || LacksMemory(old(Abs()), fault)
      ensures r == Success ==> Valid() && Abs() == Load(old(Abs()), junk)
      ensures r == Failure ==>
                if old(hkConfig).Some? && fault.NoMemory? then Abs() == LoadFailed(old(Abs()))
                else Valid() && Abs() == old(Abs())
      ensures timestamps == old(timestamps) || timestamps == null || fresh(timestamps)
    {
      hide Load, State.Valid, Ram.Valid, Layout.Valid, HeaderOver, HeaderOf, IndexOver, Resized, Next;
      if hkConfig.None? || fault.ConfigNotOpened? {
        return Failure;
      }
      ghost var s := Abs();
      LoadParts(s, junk);
      var fin := new OpenFile(hkConfig.value);
      var header := ReadHeader(fin, Header(maxFiles, currentFile, tempTime));
      maxFiles, currentFile, tempTime := header.max, header.cursor, header.temp;
      var allocation := DynamicTimestampArrayHandler(maxFiles, !fault.NoMemory?, junk);
      if allocation != Success {
        return Failure;
      }
      assert timestamps != null && Index() == Resized(s.ram.index, maxFiles, junk);
      ReadWords(fin, timestamps);
      AdvanceCursor();
      assert Index() == IndexOver(hkConfig.value, Resized(s.ram.index, maxFiles, junk));
      assert Abs() == Load(s, junk);
      return Success;
    }

    method WriteHkToFile(fileNumber: uint16, r: Record, fault: WriteFault) returns (result: Result)
      requires layout.Valid() && r.Fits(layout) && 1 <= fileNumber <= CAPACITY_LIMIT
      modifies `hkFile
      ensures result == Success <==> fault.NoFault?
      ensures result == Success ==> hkFile == WriteSlot(layout, old(hkFile), fileNumber, Image(r))
      ensures fault.NotOpened? ==> hkFile == old(hkFile)
      ensures fault.TornWrite? ==> hkFile == WriteSlot(layout, old(hkFile), fileNumber, fault.landed)
    {
      hide WriteAt, Image, SizeOfHousekeeping, Offset;
      if fault.NotOpened? {
        return Failure;
      }
      var before := if hkFile.Some? then hkFile.value else [];
      var fout := new OpenFile(before);
      var neededSize := SizeOfHousekeeping(layout);
      var position := (fileNumber - 1) * neededSize;
      OffsetIsProduct(layout, fileNumber);
      OffsetFitsInt32(layout, fileNumber);
      assert position < 0x8000_0000;
      fout.SeekSet(position);
      if fault.TornWrite? {
        fout.Write(fault.landed);
        hkFile := Some(fout.bytes);
        return Failure;
      }
      WriteFields(fout, r);
      hkFile := Some(fout.bytes);
      return Success;
    }

    /** `readable` tells whether an existing file can be opened and read without error; what a failed read leaves
        in memory is never used. */
    method ReadHkFromFile(fileNumber: uint16, into: Record, readable: bool) returns (result: Result, r: Record)
      requires layout.Valid() && into.Fits(layout) && 1 <= fileNumber <= CAPACITY_LIMIT
      ensures result == Failure <==> hkFile.None? || !readable
      ensures result == Success ==> r == ReadRecord(hkFile.value, Offset(layout, fileNumber), into)
    {
      hide ReadRecord, SizeOfHousekeeping, Offset;
      if hkFile.None? || !readable {
        return Failure, into;
      }
      var fin := new OpenFile(hkFile.value);
      var neededSize := SizeOfHousekeeping(layout);
      OffsetIsProduct(layout, fileNumber);
      fin.SeekSet((fileNumber - 1) * neededSize);
      r := ReadFields(fin, into);
      return Success, r;
    }

    /** The lazy load at the head of a populate. */
    method EnsureLoaded(fault: LoadFault, junk: Junk)
      requires Valid()
      modifies this, timestamps
      ensures Shape() && Abs() == LoadedBy(old(Abs()), fault, junk)
      ensures fault.NoLoadFault? ==> Valid()
      ensures timestamps == old(timestamps) || timestamps == null || fresh(timestamps)
    {
      hide Load, LoadFailed, ValidConfig, HeaderOf;
      if !configLoaded {
        var loaded := LoadConfig(fault, junk);
      }
      configLoaded := true;
    }

    /** The time of a new record, at the cursor, in an array of the capacity's size. */
    method RecordTime(time: uint32, junk: Junk)
      requires Shape() && Abs().ram.InRange()
      modifies `timestamps, `arraySize, timestamps
      ensures Shape() && timestamps != null && Index() == Indexed(old(Abs().ram), time, junk)
      ensures timestamps == old(timestamps) || fresh(timestamps)
    {
      hide Resized;
      var allocation := DynamicTimestampArrayHandler(maxFiles, true, junk);
      timestamps[currentFile] := time;
    }

    /** The increment with wrap. */
    method AdvanceCursor()
      requires 1 <= currentFile <= maxFiles <= CAPACITY_LIMIT
      modifies `currentFile
      ensures currentFile == Next(old(currentFile), maxFiles)
    {
      currentFile := currentFile + 1;
      if currentFile > maxFiles {
        currentFile := 1;
      }
    }

    /** The collected record is a parameter, and so is what becomes of the load, of the record's write and of the
        store of the configuration (whose failure is not reported). */
    method PopulateAndStoreHkData(collected: Record, load: LoadFault, fault: WriteFault, storable: bool, junk: Junk)
      returns (result: Result)
      requires Valid() && collected.Fits(layout)
      modifies this, timestamps
      ensures Shape() && (result == Success || load.NoLoadFault? ==> Valid())
      ensures result == Success <==> fault.NoFault?
      ensures var s := LoadedBy(old(Abs()), load, junk);
              Abs() == if result == Success then WrittenBy(layout, s, collected, storable, junk)
                       else Damaged(layout, s, fault.Landed())
      ensures load.NoLoadFault? && storable ==>
                Abs() == if result == Success then Populate(layout, old(Abs()), collected, junk)
                         else LostPopulate(layout, old(Abs()), fault.Landed(), junk)
    {
      hide WriteSlot, Stored, ValidConfig, Ready, LoadedBy, Image, Indexed, Next, HeaderOf, Ram.Valid;
      EnsureLoaded(load, junk);
      ghost var s := Abs();
      WrittenValid(layout, s, collected, junk);

      var record := collected.At(currentFile);
      result := WriteHkToFile(currentFile, record, fault);
      if result != Success {
        return;
      }
      RecordTime(record.Time(), junk);
      var stored := StoreConfig(false, storable);
      AdvanceCursor();
    }

    /** A populate during which power is lost before the configuration is stored; `landed` is what the record
        write, finished or not, has put on the disk. */
    method PopulateCutOff(collected: Record, landed: seq<uint8>, junk: Junk)
      requires Valid() && collected.Fits(layout)
      modifies this, timestamps
      ensures Valid() && Abs() == Crash(layout, old(Abs()), landed, junk)
    {
      hide WriteSlot, ValidConfig, Ready, Image;
      EnsureLoaded(NoLoadFault, junk);
      var record := collected.At(currentFile);
      var result := WriteHkToFile(currentFile, record, TornWrite(landed));
      PowerLoss();
    }

    /** `allocOk` tells whether the allocation that growth needs succeeds, and `storable` whether the configuration
        file can be opened. Failures are not reported: then growth changes only the capacity, and a wipe leaves the
        file as it was. */
    method SetMaxFiles(newMax: uint16, allocOk: bool, storable: bool, junk: Junk) returns (result: Result)
      requires Valid()
      modifies this
      ensures result == Success <==> 1 <= newMax <= 20160
      ensures var s := old(Abs());
              if !Allowed(newMax) then Valid() && Abs() == s
              else if s.ram.max < newMax && !allocOk then Shape() && Abs() == s.(ram := s.ram.(max := newMax))
              else
                var t := SetMax(s, newMax, junk);
                && Valid()
                && Abs() == if storable || s.ram.max < newMax then t
                            else t.(disk := t.disk.(config := s.disk.config))
    {
      hide Stored, Resized, ValidConfig;
      SetMaxValid(Abs(), newMax, junk);
      if newMax < 1 || newMax > CAPACITY_LIMIT {
        return Failure;
      }
      var oldMax := maxFiles;
      maxFiles := newMax;
      if oldMax < newMax {
        var allocation := DynamicTimestampArrayHandler(newMax, allocOk, junk);
        return Success;
      }
      currentFile := 1;
      hkFile := None;
      var freed := DynamicTimestampArrayHandler(0, true, junk);
      var stored := StoreConfig(true, storable);
      return Success;
    }

    /** A change of capacity during which power is lost before the configuration is stored. */
    method SetMaxFilesCutOff(newMax: uint16)
      requires Valid()
      modifies this
      ensures Valid() && Abs() == SetMaxCutOff(old(Abs()), newMax)
    {
      hide ValidConfig;
      if 1 <= newMax <= CAPACITY_LIMIT {
        var oldMax := maxFiles;
        maxFiles := newMax;
        if oldMax >= newMax {
          currentFile := 1;
          hkFile := None;
        }
      }
      PowerLoss();
    }

    /** Loads, converts and flags one record over the record memory, and lays it out as a packet. */
    method NextPacket(cv: Converters, id: uint16, more: bool, into: Record, readable: bool)
      returns (result: Result, memory: Record, packet: seq<uint8>)
      requires layout.Valid() && cv.Valid() && 1 <= id <= CAPACITY_LIMIT && into.Fits(layout)
      ensures result == Failure <==> hkFile.None? || !readable
      ensures result == Success ==>
        && memory == Prepared(cv, ReadRecord(hkFile.value, Offset(layout, id), into), more)
        && memory.Fits(layout) && |memory.segments| == SEGMENTS && packet == Packet(memory)
      ensures result == Success ==>
        var r := ReadRecord(hkFile.value, Offset(layout, id), into);
        && |r.segments| == 8
        && packet == [0, 0, if more then 1 else r.timeOrder.final]
                     + Bytes32(cv.net32(r.timeOrder.unixTime)) + Bytes16(cv.net16(r.timeOrder.dataPosition))
                     + r.segments[0] + cv.segment(1, r.segments[1]) + cv.segment(2, r.segments[2])
                     + cv.segment(3, r.segments[3]) + cv.segment(4, r.segments[4])
                     + r.segments[5] + r.segments[6]
    {
      hide ReadRecord, Offset, Packet;
      result, memory := ReadHkFromFile(id, into, readable);
      if result != Success {
        return result, memory, [];
      }
      ReadFits(layout, hkFile.value, id, into);
      ConvertFits(layout, cv, memory, more);
      PacketBytes(layout, cv, memory, more);
      memory := Convert(cv, memory);
      if more {
        memory := memory.(timeOrder := memory.timeOrder.(final := 1));
      }
      packet := BuildPacket(layout, memory);
    }

    /** The unlocked loop: `count` packets backwards from `start`; the first `loads` reads and the first `sends`
        sends succeed. */
    method TransmitPages(cv: Converters, max: uint16, start: uint16, total: uint16, loads: nat, sends: nat)
      returns (result: Result, packets: seq<seq<uint8>>)
      requires layout.Valid() && cv.Valid() && 1 <= start <= max <= CAPACITY_LIMIT
      ensures LaidOut(packets, TransmitSpec(layout, cv, max, hkFile, start, total, Min(loads, sends)).sent)
      ensures result == TransmitSpec(layout, cv, max, hkFile, start, total, Min(loads, sends)).result
    {
      hide Packet, Turn, TransmitSpec, SentSoFar, Prepared, ReadRecord, Offset, Bytes16, Bytes32, Layout.Valid,
           Converters.Valid, ZeroRecord, LaidOut;
      packets := [];
      var id: uint16, count: uint16, data := start, total, ZeroRecord(layout);
      ZeroFits(layout);
      ghost var good := Min(loads, sends);
      ghost var f := Reading(id, count, data);
      ghost var sent: seq<Record> := [];
      SentNothing(layout, cv, max, hkFile, start, total);
      LaidOutLength([], []);
      while count > 0
        invariant 1 <= id <= max && data.Fits(layout) && f == Reading(id, count, data)
        invariant |sent| == total - count <= good && LaidOut(packets, sent)
        invariant SentSoFar(layout, cv, max, hkFile, start, total, f, sent)
      {
        id := id - 1;
        if id == 0 {
          id := max;
        }
        LaidOutLength(packets, sent);
        SentInAll(layout, cv, max, hkFile, start, total, f, sent, good);
        var loaded, memory, packet := NextPacket(cv, id, count > 1, data, |packets| < loads);
        if loaded != Success {
          return Failure, packets;
        }
        SentOneMore(layout, cv, max, hkFile, start, total, f, sent);
        data := memory;
        if |packets| >= sends {
          return Failure, packets;
        }
        LaidOutNext(packets, sent, packet, data);
        packets := packets + [packet];
        sent := sent + [data];
        f := Turn(layout, cv, max, hkFile.value, f);
        count := count - 1;
      }
      SentInAll(layout, cv, max, hkFile, start, total, f, sent, good);
      return Success, packets;
    }

    /** Packets are returned in the order sent: exactly min(limit, capacity) of them, or fewer and a failure. */
    method FetchHistoricHkAndTransmit(cv: Converters, limit: uint16, beforeId: uint16, beforeTime: uint32,
                                      loads: nat, sends: nat) returns (result: Result, packets: seq<seq<uint8>>)
      requires Valid() && cv.Valid()
      ensures var start := StartOf(Abs().ram, beforeId, beforeTime);
              var reply := Fetch(layout, cv, Abs(), limit, start, Min(loads, sends));
              result == reply.result && LaidOut(packets, reply.sent)
      ensures var count := Requested(Abs().ram, limit);
              && (result == Success <==> count == 0 || (hkFile.Some? && count <= loads && count <= sends))
              && (if result == Success then |packets| == count else |packets| < count)
      ensures |packets| <= limit && |packets| <= maxFiles
      ensures result == Success ==> |packets| == limit || |packets| == maxFiles
    {
      hide FileId, Pages, ValidConfig, HeaderOf, ZeroRecord, Packet;
      var lockedMax := maxFiles;
      var id: uint16 := beforeId;
      if beforeTime != 0 {
        id := GetFileIdFromTimestamp(beforeTime);
      }
      if id == 0 || id > lockedMax {
        id := currentFile;
      }
      var count: uint16 := limit;
      if count > lockedMax {
        count := lockedMax;
      } else if count == 0 {
        return Success, [];
      }
      result, packets := TransmitPages(cv, lockedMax, id, count, loads, sends);
    }
  }

  lemma ResizedSame(index: seq<uint32>, items: nat, junk: Junk)
    ensures items == 0 ==> Resized(index, items, junk) == []
    ensures items > 0 && |index| == items + 1 ==> Resized(index, items, junk) == index
  {
  }

  lemma NothingWritten(f: File, pos: nat)
    ensures WriteAt(f, pos, WordBytes([])) == f
  {
  }

  /** What a load finds and leaves, part by part. */
  lemma LoadParts(s: State, junk: Junk)
    requires s.Valid() && s.disk.config.Some?
    ensures HEADER <= |s.disk.config.value|
    ensures var h := HeaderOver(s.disk.config.value, s.ram.Head());
            && h == HeaderOf(s.disk.config.value)
            && 1 <= h.cursor <= h.max <= CAPACITY_LIMIT
            && Load(s, junk).Valid()
            && Load(s, junk) == State(Ram(h.max, Next(h.cursor, h.max),
                                          IndexOver(s.disk.config.value, Resized(s.ram.index, h.max, junk)),
                                          s.ram.loaded, h.temp), s.disk)
  {
    HeaderReached(s.disk.config.value, s.ram.Head());
  }

  lemma ReadFits(l: Layout, f: File, slot: nat, into: Record)
    requires slot >= 1 && into.Fits(l)
    ensures ReadRecord(f, Offset(l, slot), into).Fits(l)
  {
  }
}
