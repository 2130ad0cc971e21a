/** The store as a bounded history: after any run, the retained slots are the last records written. */
module Refinement {
  import opened Machine
  import opened ByteFile
  import opened RingMath
  import opened RecordFile
  import opened ConfigFile
  import opened Store

  type History = seq<Record>

  /** What an earlier ring left in the config file behind the header, in slots the present history has not
      reached. A power loss brings such words from the file into the index. */
  datatype Past = NoPast | Past(config: File, reloaded: bool)
  {
    function OnDisk(i: nat): uint32 {
      match this
      case NoPast => 0
      case Past(c, _) => DiskWord(c, i)
    }

    predicate Reloaded() {
      Past? && reloaded
    }

    function InRam(i: nat): uint32 {
      if Reloaded() then OnDisk(i) else 0
    }

    function AfterLoss(): Past {
      match this
      case NoPast => NoPast
      case Past(c, _) => Past(c, true)
    }
  }

  /** The words that a wipe or a growth leaves behind. */
  function Remains(config: Option<File>): Past {
    match config
    case None => NoPast
    case Some(c) => Past(c, false)
  }

  /** Write j is still retained in a ring of n slots. */
  predicate Live(n: nat, h: History, j: int) {
    0 <= j < |h| <= j + n
  }

  /** Every record fits the layout and carries its own slot as its position. */
  ghost predicate WellPlaced(l: Layout, n: nat, h: History)
    requires n > 0
  {
    forall j :: 0 <= j < |h| ==> h[j].Fits(l) && h[j].timeOrder.dataPosition == Slot(n, j)
  }

  /** Slots 1..n of an index: the latest write's time, or what there was before where nothing was written. */
  ghost predicate IndexRefines(n: nat, past: Past, h: History, index: seq<uint32>)
    requires n > 0
  {
    && |index| == n + 1
    && (forall j :: Live(n, h, j) ==> index[Slot(n, j)] == h[j].Time())
    && (forall i :: |h| < i <= n ==> index[i] == past.InRam(i))
  }

  /** RAM with the configuration loaded. */
  ghost predicate RamRefines(n: nat, past: Past, h: History, ram: Ram)
    requires n > 0
  {
    match ram
    case Ram(max, cursor, index, loaded, _) =>
      && loaded && max == n && cursor == Slot(n, |h|)
      && (h == [] ==> !past.Reloaded())
      && ((h == [] && index == []) || IndexRefines(n, past, h, index))
  }

  /** The config file: header of the last write, and the index words. Before the first write, only the
      words that this write will not cover are constrained. */
  ghost predicate ConfigRefines(n: nat, past: Past, h: History, c: File)
    requires n > 0
  {
    && ValidConfig(c)
    && (h != [] ==> HeaderOf(c).max == n && HeaderOf(c).cursor == Slot(n, |h| - 1))
    && WordsRefine(n, past, h, c)
  }

  ghost predicate WordsRefine(n: nat, past: Past, h: History, c: File)
    requires n > 0
  {
    && (forall j :: Live(n, h, j) ==> DiskWord(c, Slot(n, j)) == h[j].Time())
    && (forall i :: Max(1, |h|) < i <= n ==> DiskWord(c, i) == past.OnDisk(i))
  }

  /** The record file holds every retained record; if `torn`, the oldest one's slot (the one about to
      be reused) may have been damaged by an interrupted write. */
  ghost predicate RecordsRefine(l: Layout, n: nat, h: History, torn: bool, records: Option<File>)
    requires n > 0
  {
    forall j :: Live(n, h, j) && !(torn && j + n == |h|) ==> Holds(l, records, Slot(n, j), h[j])
  }

  /** How many slots the record file can reach. */
  function Extent(n: nat, h: History, torn: bool): nat {
    var k := |h| + if torn then 1 else 0;
    if k < n then k else n
  }

  /** State s stores history h in a ring of n slots. Without a config file nothing has been written and an
      unloaded store can only have the default capacity; with one, an unloaded store has been written to. */
  ghost predicate Refines(l: Layout, n: nat, past: Past, h: History, torn: bool, s: State)
    requires n > 0
  {
    match s.disk.config
    case None =>
      && Retained(l, n, h, torn, s.disk.records)
      && h == [] && past == NoPast
      && (if s.ram.loaded then RamRefines(n, past, h, s.ram) else s.ram == Boot() && n == CAPACITY_LIMIT)
    case Some(c) =>
      && Retained(l, n, h, torn, s.disk.records)
      && ConfigRefines(n, past, h, c)
      && (if s.ram.loaded then RamRefines(n, past, h, s.ram) && (h != [] ==> s.ram.temp == HeaderOf(c).temp)
          else s.ram == Boot() && h != [] && past == past.AfterLoss())
  }

  /** The history is well formed, and the record file holds its retained part and nothing beyond its slots. */
  ghost predicate Retained(l: Layout, n: nat, h: History, torn: bool, records: Option<File>)
    requires n > 0
  {
    && l.Valid() && n <= CAPACITY_LIMIT && WellPlaced(l, n, h) && RecordsRefine(l, n, h, torn, records)
    && WithinExtent(l, n, h, torn, records)
  }

  /** The record file is there once a record has been written, and ends within the slots reached. */
  ghost predicate WithinExtent(l: Layout, n: nat, h: History, torn: bool, records: Option<File>) {
    match records
    case None => h == []
    case Some(f) => |f| <= Offset(l, Extent(n, h, torn) + 1)
  }

  lemma RefinesValid(l: Layout, n: nat, past: Past, h: History, torn: bool, s: State)
    requires n > 0 && Refines(l, n, past, h, torn, s)
    ensures s.Valid()
  {
  }

  /** What a loaded refining state offers to a reader. */
  lemma LoadedFacts(l: Layout, n: nat, past: Past, h: History, torn: bool, s: State)
    requires n > 0 && Refines(l, n, past, h, torn, s) && s.ram.loaded
    ensures s.ram.max == n <= CAPACITY_LIMIT && s.ram.cursor == Slot(n, |h|)
    ensures l.Valid() && WellPlaced(l, n, h) && RecordsRefine(l, n, h, torn, s.disk.records)
    ensures WithinExtent(l, n, h, torn, s.disk.records)
  {
  }

  /** What any refining state that has stored a record offers to a reader, loaded or not. */
  lemma RetainedFacts(l: Layout, n: nat, past: Past, h: History, torn: bool, s: State)
    requires n > 0 && Refines(l, n, past, h, torn, s) && h != []
    ensures s.disk.records.Some? && s.disk.config.Some?
    ensures l.Valid() && n <= CAPACITY_LIMIT && WellPlaced(l, n, h)
    ensures RecordsRefine(l, n, h, torn, s.disk.records) && WithinExtent(l, n, h, torn, s.disk.records)
  {
    hide RecordsRefine, WellPlaced, RamRefines, ConfigRefines;
  }

  // ---------- Loading ----------

  /** Booting from the disk image gives back the index. */
  lemma LoadIndex(n: nat, past: Past, h: History, f: File, junk: Junk)
    requires n > 0 && h != [] && ConfigRefines(n, past, h, f) && past == past.AfterLoss()
    ensures IndexRefines(n, past, h, IndexOver(f, Resized([], n, junk)))
  {
    var index := IndexOver(f, Resized([], n, junk));
    forall i | 1 <= i <= n ensures index[i] == DiskWord(f, i) {
      WordOverZero(f, i);
    }
  }

  /** Loading at boot rebuilds capacity, cursor and index from the disk. */
  lemma LoadRefines(n: nat, past: Past, h: History, s: State, junk: Junk)
    requires 0 < n && h != [] && s.ram == Boot() && past == past.AfterLoss()
    requires s.disk.config.Some? && ConfigRefines(n, past, h, s.disk.config.value)
    ensures s.Valid() && RamRefines(n, past, h, Ready(s, junk).ram)
    ensures Ready(s, junk).ram.temp == HeaderOf(s.disk.config.value).temp
  {
    var f := s.disk.config.value;
    HeaderReached(f, s.ram.Head());
    LoadIndex(n, past, h, f, junk);
    SlotNext(n, |h| - 1);
  }

  /** The lazy load turns any refining state into a loaded one, changing neither history nor disk. */
  lemma ReadyRefines(l: Layout, n: nat, past: Past, h: History, torn: bool, s: State, junk: Junk)
    requires n > 0 && Refines(l, n, past, h, torn, s)
    ensures s.Valid() && Refines(l, n, past, h, torn, Ready(s, junk)) && Ready(s, junk).ram.loaded
  {
    if !s.ram.loaded && h != [] {
      LoadRefines(n, past, h, s, junk);
    }
  }

  // ---------- Writing ----------

  /** Appending a write to a ring: which earlier writes stay retained, and where they are. */
  lemma AppendLive(n: nat, h: History, r: Record, j: int)
    requires n > 0 && Live(n, h + [r], j)
    ensures j == |h| || (Live(n, h, j) && (h + [r])[j] == h[j] && Slot(n, j) != Slot(n, |h|) && j + n != |h|)
  {
    if j != |h| {
      SlotDistinct(n, j, |h|);
    }
  }

  /** Slots beyond the history stay beyond it until the cursor reaches them. */
  lemma UnwrittenSlot(n: nat, k: nat, i: nat)
    requires n > 0 && k + 1 < i <= n
    ensures i != Slot(n, k)
  {
  }

  lemma IndexedRefines(n: nat, past: Past, h: History, ram: Ram, r: Record, junk: Junk)
    requires n > 0 && ram.Valid() && RamRefines(n, past, h, ram)
    ensures IndexRefines(n, past, h + [r], Indexed(ram, r.Time(), junk))
  {
    var index := Indexed(ram, r.Time(), junk);
    forall j | Live(n, h + [r], j) ensures index[Slot(n, j)] == (h + [r])[j].Time() {
      AppendLive(n, h, r, j);
    }
    forall i | |h + [r]| < i <= n ensures index[i] == past.InRam(i) {
      UnwrittenSlot(n, |h|, i);
    }
  }

  /** The word of slot i after the store of an index whose cursor is elsewhere: the file's, if there is one. */
  function KeptWord(c: Option<File>, index: seq<uint32>, i: nat): uint32
    requires i < |index|
  {
    if c.None? then index[i] else DiskWord(c.value, i)
  }

  /** What the file must already hold for a store to make it an image of a history one longer. */
  ghost predicate ReadyToStore(n: nat, past: Past, h: History, c: Option<File>, index: seq<uint32>)
    requires n > 0 && |index| == n + 1
  {
    && (forall j :: Live(n, h, j) ==> c.Some? && DiskWord(c.value, Slot(n, j)) == h[j].Time())
    && (forall i :: |h| + 1 < i <= n ==> KeptWord(c, index, i) == past.OnDisk(i))
  }

  /** The config file after the store, whether it was written whole or incrementally. */
  lemma StoredRefines(n: nat, past: Past, h: History, r: Record, c: Option<File>, hd: Header, index: seq<uint32>)
    requires n > 0 && IndexRefines(n, past, h + [r], index) && ReadyToStore(n, past, h, c, index)
    requires n <= CAPACITY_LIMIT && hd.max == n && hd.cursor == Slot(n, |h|)
    ensures ConfigRefines(n, past, h + [r], Stored(c, hd, index, false))
    ensures HeaderOf(Stored(c, hd, index, false)) == hd
  {
    hide Stored, HeaderOf, ValidConfig, DiskWord;
    var f := Stored(c, hd, index, false);
    StoredValid(c, hd, index, false);
    HeaderOfStored(c, hd, index, false);
    forall j | Live(n, h + [r], j) ensures DiskWord(f, Slot(n, j)) == (h + [r])[j].Time() {
      AppendLive(n, h, r, j);
      StoredWord(c, hd, index, Slot(n, j));
    }
    forall i | Max(1, |h + [r]|) < i <= n ensures DiskWord(f, i) == past.OnDisk(i) {
      UnwrittenSlot(n, |h|, i);
      StoredWord(c, hd, index, i);
    }
  }

  lemma ReadyWords(n: nat, past: Past, h: History, r: Record, c: Option<File>, index: seq<uint32>)
    requires n > 0 && IndexRefines(n, past, h + [r], index)
    requires if c.Some? then WordsRefine(n, past, h, c.value) else h == [] && past == NoPast
    ensures ReadyToStore(n, past, h, c, index)
  {
    hide DiskWord;
  }

  lemma StoredWord(c: Option<File>, hd: Header, index: seq<uint32>, i: nat)
    requires hd.cursor < |index| && i < |index|
    ensures DiskWord(Stored(c, hd, index, false), i) ==
            if c.None? || i == hd.cursor then index[i] else DiskWord(c.value, i)
  {
    if c.None? {
      StoredFull(c, hd, index, false, i);
    } else {
      StoredIncremental(c.value, hd, index, i);
    }
  }

  /** Writing at the cursor's slot at most a slot's bytes damages only the oldest retained record. */
  lemma WriteKeepsOthers(l: Layout, n: nat, h: History, torn: bool, records: Option<File>, data: seq<uint8>)
    requires n > 0 && l.Valid() && WellPlaced(l, n, h) && RecordsRefine(l, n, h, torn, records)
    requires |data| <= SizeOfHousekeeping(l)
    ensures RecordsRefine(l, n, h, true, WriteSlot(l, records, Slot(n, |h|), data))
  {
    forall j | Live(n, h, j) && j + n != |h|
      ensures Holds(l, WriteSlot(l, records, Slot(n, |h|), data), Slot(n, j), h[j])
    {
      SlotDistinct(n, j, |h|);
      WriteFrame(l, records.value, Slot(n, |h|), data, Slot(n, j), h[j]);
    }
  }

  /** A write at the cursor's slot keeps the file within one more slot than the history. */
  lemma WriteExtent(l: Layout, n: nat, h: History, torn: bool, records: Option<File>, data: seq<uint8>)
    requires n > 0 && WithinExtent(l, n, h, torn, records) && |data| <= SizeOfHousekeeping(l)
    ensures WithinExtent(l, n, h, true, WriteSlot(l, records, Slot(n, |h|), data))
  {
    hide SizeOfHousekeeping, WriteAt;
    SlotAtMost(n, |h|);
    OffsetMonotone(l, Slot(n, |h|) + 1, Extent(n, h, true) + 1);
    OffsetMonotone(l, Extent(n, h, torn) + 1, Extent(n, h, true) + 1);
  }

  /** Completing a write counts it to the history. */
  lemma CompletedExtent(l: Layout, n: nat, h: History, f: File, r: Record)
    requires WithinExtent(l, n, h, true, Some(f))
    ensures WithinExtent(l, n, h + [r], false, Some(f))
  {
    hide Offset;
    assert Extent(n, h + [r], false) == Extent(n, h, true);
  }

  lemma ExtentAfterWrite(l: Layout, n: nat, h: History, torn: bool, records: Option<File>, r: Record)
    requires n > 0 && l.Valid() && WithinExtent(l, n, h, torn, records) && r.Fits(l)
    ensures WithinExtent(l, n, h + [r], false, WriteSlot(l, records, Slot(n, |h|), Image(r)))
  {
    hide *;
    SlotSize(l, r);
    WriteExtent(l, n, h, torn, records, Image(r));
    WriteSlotThere(l, records, Slot(n, |h|), Image(r));
    CompletedExtent(l, n, h, WriteSlot(l, records, Slot(n, |h|), Image(r)).value, r);
  }

  lemma WriteSlotThere(l: Layout, records: Option<File>, slot: nat, data: seq<uint8>)
    requires slot >= 1
    ensures WriteSlot(l, records, slot, data).Some?
  {
  }

  lemma RecordsAfterWrite(l: Layout, n: nat, h: History, torn: bool, records: Option<File>, r: Record)
    requires n > 0 && l.Valid() && WellPlaced(l, n, h) && RecordsRefine(l, n, h, torn, records) && r.Fits(l)
    ensures RecordsRefine(l, n, h + [r], false, WriteSlot(l, records, Slot(n, |h|), Image(r)))
  {
    hide SizeOfHousekeeping, WriteAt, Offset, Image;
    var f := WriteSlot(l, records, Slot(n, |h|), Image(r));
    SlotSize(l, r);
    WriteKeepsOthers(l, n, h, torn, records, Image(r));
    WriteHolds(l, if records.Some? then records.value else [], Slot(n, |h|), r);
    forall j | Live(n, h + [r], j) ensures Holds(l, f, Slot(n, j), (h + [r])[j]) {
      AppendLive(n, h, r, j);
    }
  }

  /** The record as a populate at history length k stores it. */
  function Placed(n: nat, k: nat, r: Record): Record
    requires 0 < n < 0x1_0000
  {
    r.At(Slot(n, k))
  }

  lemma WrittenRam(l: Layout, n: nat, past: Past, h: History, s: State, r: Record, junk: Junk)
    requires 0 < n <= CAPACITY_LIMIT && RamRefines(n, past, h, s.ram) && s.Valid()
    ensures RamRefines(n, past, h + [Placed(n, |h|, r)], Written(l, s, r, junk).ram)
  {
    hide IndexRefines, Indexed, Stored, WriteSlot, Image, Slot, ValidConfig, Past.InRam;
    IndexedRefines(n, past, h, s.ram, Placed(n, |h|, r), junk);
    SlotNext(n, |h|);
  }

  lemma WrittenDisk(l: Layout, n: nat, past: Past, h: History, torn: bool, s: State, r: Record, junk: Junk)
    requires 0 < n <= CAPACITY_LIMIT && Refines(l, n, past, h, torn, s) && r.Fits(l) && s.ram.loaded && s.Valid()
    ensures var p, d := Placed(n, |h|, r), Written(l, s, r, junk).disk;
            && d.config.Some? && ConfigRefines(n, past, h + [p], d.config.value)
            && HeaderOf(d.config.value) == s.ram.Head()
            && RecordsRefine(l, n, h + [p], false, d.records) && WithinExtent(l, n, h + [p], false, d.records)
  {
    hide HeaderOf, ValidConfig, IndexRefines, ReadyToStore, WithinExtent, Stored, Indexed, DiskWord;
    var p := Placed(n, |h|, r);
    IndexedRefines(n, past, h, s.ram, p, junk);
    ReadyWords(n, past, h, p, s.disk.config, Indexed(s.ram, r.Time(), junk));
    StoredRefines(n, past, h, p, s.disk.config, s.ram.Head(), Indexed(s.ram, r.Time(), junk));
    RecordsAfterWrite(l, n, h, torn, s.disk.records, p);
    ExtentAfterWrite(l, n, h, torn, s.disk.records, p);
  }

  lemma PlacedStaysPlaced(l: Layout, n: nat, h: History, r: Record)
    requires 0 < n <= CAPACITY_LIMIT && WellPlaced(l, n, h) && r.Fits(l)
    ensures WellPlaced(l, n, h + [Placed(n, |h|, r)])
  {
  }

  lemma LoadedRefines(l: Layout, n: nat, past: Past, h: History, torn: bool, s: State)
    requires n > 0 && Retained(l, n, h, torn, s.disk.records)
    requires s.disk.config.Some? && ConfigRefines(n, past, h, s.disk.config.value)
    requires RamRefines(n, past, h, s.ram) && s.ram.temp == HeaderOf(s.disk.config.value).temp
    ensures Refines(l, n, past, h, torn, s)
  {
  }

  lemma WrittenRefines(l: Layout, n: nat, past: Past, h: History, torn: bool, s: State, r: Record, junk: Junk)
    requires 0 < n <= CAPACITY_LIMIT && Refines(l, n, past, h, torn, s) && r.Fits(l) && s.ram.loaded && s.Valid()
    ensures Refines(l, n, past, h + [Placed(n, |h|, r)], false, Written(l, s, r, junk))
  {
    var p, t := Placed(n, |h|, r), Written(l, s, r, junk);
    WrittenRam(l, n, past, h, s, r, junk);
    WrittenDisk(l, n, past, h, torn, s, r, junk);
    PlacedStaysPlaced(l, n, h, r);
    LoadedRefines(l, n, past, h + [p], false, t);
  }

  /** A successful populate appends exactly one record, and repairs a torn slot. */
  lemma PopulateRefines(l: Layout, n: nat, past: Past, h: History, torn: bool, s: State, r: Record, junk: Junk)
    requires 0 < n <= CAPACITY_LIMIT && Refines(l, n, past, h, torn, s) && r.Fits(l)
    ensures s.Valid() && Populate(l, s, r, junk).ram.loaded
    ensures Refines(l, n, past, h + [Placed(n, |h|, r)], false, Populate(l, s, r, junk))
  {
    ReadyRefines(l, n, past, h, torn, s, junk);
    WrittenRefines(l, n, past, h, torn, Ready(s, junk), r, junk);
  }

  /** A populate whose record write fails leaves the history as it was; only the slot about to be reused
      may have changed. */
  lemma LostRefines(l: Layout, n: nat, past: Past, h: History, torn: bool, s: State, partial: Option<seq<uint8>>,
                    junk: Junk)
    requires 0 < n <= CAPACITY_LIMIT && Refines(l, n, past, h, torn, s)
    requires partial.Some? ==> |partial.value| <= SizeOfHousekeeping(l)
    ensures s.Valid() && LostPopulate(l, s, partial, junk).ram.loaded
    ensures Refines(l, n, past, h, torn || partial.Some?, LostPopulate(l, s, partial, junk))
  {
    hide ConfigRefines, HeaderOf, ValidConfig, RamRefines, WithinExtent, RecordsRefine, Offset, SizeOfHousekeeping;
    ReadyRefines(l, n, past, h, torn, s, junk);
    if partial.Some? {
      LoadedFacts(l, n, past, h, torn, Ready(s, junk));
      WriteKeepsOthers(l, n, h, torn, s.disk.records, partial.value);
      WriteExtent(l, n, h, torn, s.disk.records, partial.value);
    }
  }

  /** A power loss leaves the history; what an earlier ring left on disk may now reach the index. */
  lemma LossRefines(l: Layout, n: nat, past: Past, h: History, torn: bool, s: State)
    requires 0 < n <= CAPACITY_LIMIT && Refines(l, n, past, h, torn, s)
    requires h != [] || (n == CAPACITY_LIMIT && s.disk.config.None?)
    ensures Refines(l, n, past.AfterLoss(), h, torn, PowerCycle(s))
  {
    hide HeaderOf, ValidConfig, DiskWord, Retained;
  }

  /** A populate that is cut off leaves the history as it was; only the slot about to be reused
      may have changed. */
  lemma CrashRefines(l: Layout, n: nat, past: Past, h: History, torn: bool, s: State, partial: seq<uint8>, junk: Junk)
    requires 0 < n <= CAPACITY_LIMIT && Refines(l, n, past, h, torn, s)
    requires |partial| <= SizeOfHousekeeping(l)
    requires h != [] || (n == CAPACITY_LIMIT && s.disk.config.None?)
    ensures s.Valid()
    ensures Refines(l, n, past.AfterLoss(), h, true, Crash(l, s, partial, junk))
  {
    hide Refines, SizeOfHousekeeping, Ready, WriteSlot;
    LostRefines(l, n, past, h, torn, s, Some(partial), junk);
    LossRefines(l, n, past, h, true, LostPopulate(l, s, Some(partial), junk));
  }

  // ---------- What an earlier ring left ----------

  /** The words left on disk in slots the history has not reached are zero: either there never were any,
      or the history has overwritten them. */
  ghost predicate Healed(n: nat, past: Past, k: nat) {
    forall i :: Max(1, k) < i <= n ==> past.OnDisk(i) == 0
  }

  /** A store over the remains of an earlier ring refines its history as if there had been none exactly when
      the remains are zero in every slot not yet reached. */
  lemma RefinesAfreshExactly(l: Layout, n: nat, past: Past, h: History, torn: bool, s: State)
    requires 0 < n <= CAPACITY_LIMIT && Refines(l, n, past, h, torn, s)
    ensures Refines(l, n, NoPast, h, torn, s) <==> Healed(n, past, |h|)
  {
    hide HeaderOf, ValidConfig, DiskWord, Retained;
  }

  /** A full turn of the ring overwrites everything that was left: the store is then one that never had a past. */
  lemma FullTurnHeals(l: Layout, n: nat, past: Past, h: History, torn: bool, s: State)
    requires 0 < n <= CAPACITY_LIMIT && Refines(l, n, past, h, torn, s) && |h| >= n
    ensures Refines(l, n, NoPast, h, torn, s)
  {
    hide Refines;
    RefinesAfreshExactly(l, n, past, h, torn, s);
  }
}
