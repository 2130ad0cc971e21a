/** Populates during which the configuration file or the memory for the index fails: what the store is left with. */
module Faults {
  import opened Machine
  import opened ByteFile
  import opened RingMath
  import opened RecordFile
  import opened ConfigFile
  import opened Store
  import opened Refinement
  import opened Runs

  // ---------- No memory for the index during the lazy load ----------

  /** The history with its newest record replaced. */
  ghost function Replaced(n: nat, h: History, r: Record): History
    requires 0 < n <= CAPACITY_LIMIT && h != []
  {
    h[..|h| - 1] + [Placed(n, |h| - 1, r)]
  }

  /** The load has read the cursor without advancing it. */
  lemma FailedLoadCursor(l: Layout, n: nat, past: Past, h: History, torn: bool, s: State, junk: Junk)
    requires 0 < n <= CAPACITY_LIMIT && Refines(l, n, past, h, torn, s) && !s.ram.loaded && h != []
    ensures s.Valid() && s.disk.config.Some?
    ensures var t := LoadedBy(s, NoMemory, junk);
            && t.ram == Ram(n, Slot(n, |h| - 1), [], true, HeaderOf(s.disk.config.value).temp) && t.disk == s.disk
  {
    hide Retained, WordsRefine, HeaderOf, HeaderOver;
    RefinesValid(l, n, past, h, torn, s);
    HeaderReached(s.disk.config.value, s.ram.Head());
  }

  /** Replacing the newest record keeps the others live, and in other slots. */
  lemma ReplacedLive(n: nat, h: History, r: Record, j: int)
    requires 0 < n <= CAPACITY_LIMIT && h != [] && Live(n, Replaced(n, h, r), j)
    ensures Live(n, h, j) && |Replaced(n, h, r)| == |h|
    ensures j < |h| - 1 ==> Replaced(n, h, r)[j] == h[j] && Slot(n, j) != Slot(n, |h| - 1)
  {
    if j < |h| - 1 {
      SlotDistinct(n, j, |h| - 1);
    }
  }

  lemma ReplacedWords(n: nat, past: Past, h: History, c: File, hd: Header, index: seq<uint32>, r: Record)
    requires 0 < n <= CAPACITY_LIMIT && h != [] && WordsRefine(n, past, h, c)
    requires |index| == n + 1 && hd.cursor == Slot(n, |h| - 1) && index[hd.cursor] == r.Time()
    ensures WordsRefine(n, past, Replaced(n, h, r), Stored(Some(c), hd, index, false))
  {
    hide Stored, DiskWord;
    var h', f := Replaced(n, h, r), Stored(Some(c), hd, index, false);
    forall j | Live(n, h', j) ensures DiskWord(f, Slot(n, j)) == h'[j].Time() {
      ReplacedLive(n, h, r, j);
      StoredWord(Some(c), hd, index, Slot(n, j));
    }
    forall i | Max(1, |h'|) < i <= n ensures DiskWord(f, i) == past.OnDisk(i) {
      StoredWord(Some(c), hd, index, i);
    }
  }

  lemma ReplacedHeld(l: Layout, n: nat, h: History, torn: bool, records: Option<File>, r: Record)
    requires 0 < n <= CAPACITY_LIMIT && h != [] && Retained(l, n, h, torn, records) && r.Fits(l)
    ensures var p := Placed(n, |h| - 1, r);
            RecordsRefine(l, n, Replaced(n, h, r), torn, WriteSlot(l, records, Slot(n, |h| - 1), Image(p)))
  {
    hide Image, Offset, SizeOfHousekeeping, WriteAt, Slot;
    var k, p, h' := |h| - 1, Placed(n, |h| - 1, r), Replaced(n, h, r);
    var before := if records.Some? then records.value else [];
    SlotSize(l, p);
    WriteHolds(l, before, Slot(n, k), p);
    forall j | Live(n, h', j) && !(torn && j + n == |h'|)
      ensures Holds(l, WriteSlot(l, records, Slot(n, k), Image(p)), Slot(n, j), h'[j])
    {
      ReplacedLive(n, h, r, j);
      if j < k {
        WriteFrame(l, before, Slot(n, k), Image(p), Slot(n, j), h[j]);
      }
    }
  }

  lemma ReplacedRecords(l: Layout, n: nat, h: History, torn: bool, records: Option<File>, r: Record)
    requires 0 < n <= CAPACITY_LIMIT && h != [] && Retained(l, n, h, torn, records) && r.Fits(l)
    ensures var p := Placed(n, |h| - 1, r);
            Retained(l, n, Replaced(n, h, r), torn, WriteSlot(l, records, Slot(n, |h| - 1), Image(p)))
  {
    hide Image, Offset, SizeOfHousekeeping, RecordsRefine, Slot;
    var k, p := |h| - 1, Placed(n, |h| - 1, r);
    ReplacedHeld(l, n, h, torn, records, r);
    SlotSize(l, p);
    SlotAtMost(n, k);
    SlotsDisjoint(l, Slot(n, k), Slot(n, k) + 1);
    OffsetMonotone(l, Slot(n, k) + 1, Extent(n, h, torn) + 1);
  }

  /** The populate after such a load writes over the newest record. The disk then holds, and the next boot loads,
      the history with that record replaced; until then the index in RAM knows no record but the new one. */
  lemma FailedLoadReplacesNewest(l: Layout, n: nat, past: Past, h: History, torn: bool, s: State, r: Record,
                                 junk: Junk)
    requires 0 < n <= CAPACITY_LIMIT && Refines(l, n, past, h, torn, s) && !s.ram.loaded && h != [] && r.Fits(l)
    ensures s.Valid()
    ensures var t := Step(l, s, DoFaultyPopulate(r, NoMemory, true, junk));
            && t.Valid() && |t.ram.index| == n + 1
            && (forall i :: 1 <= i <= n ==>
                  t.ram.index[i] == if i == Slot(n, |h| - 1) then r.Time() else 0)
            && Refines(l, n, past, Replaced(n, h, r), torn, PowerCycle(t))
  {
    hide Stored, HeaderOf, ValidConfig, WordsRefine, Retained, WriteSlot, Image, LoadedBy, RamRefines;
    RefinesValid(l, n, past, h, torn, s);
    FailedLoadCursor(l, n, past, h, torn, s, junk);
    StepValid(l, s, DoFaultyPopulate(r, NoMemory, true, junk));
    var u, c := LoadedBy(s, NoMemory, junk), s.disk.config.value;
    var index := Indexed(u.ram, r.Time(), junk);
    StoredValid(Some(c), u.ram.Head(), index, false);
    HeaderOfStored(Some(c), u.ram.Head(), index, false);
    ReplacedWords(n, past, h, c, u.ram.Head(), index, r);
    ReplacedRecords(l, n, h, torn, s.disk.records, r);
  }

  // ---------- The configuration file cannot be opened ----------

  /** To be read: the populate takes the store for a new one, and its own store of the configuration makes that
      last. Capacity and cursor are forgotten and the first slot is overwritten. */
  lemma UnopenedConfigForgets(l: Layout, n: nat, past: Past, h: History, torn: bool, s: State, r: Record, junk: Junk)
    requires 0 < n <= CAPACITY_LIMIT && Refines(l, n, past, h, torn, s) && !s.ram.loaded
    ensures s.Valid()
    ensures var t := Step(l, s, DoFaultyPopulate(r, ConfigNotOpened, true, junk));
            && t.disk.config.Some? && HeaderOf(t.disk.config.value) == Header(CAPACITY_LIMIT, 1, Boot().temp)
            && t.ram.max == CAPACITY_LIMIT && t.ram.cursor == 2
            && Holds(l, t.disk.records, 1, r.At(1))
  {
    hide Stored, HeaderOf, ValidConfig, Retained, ConfigRefines, Image, Holds, Indexed;
    RefinesValid(l, n, past, h, torn, s);
    var u := LoadedBy(s, ConfigNotOpened, junk);
    HeaderOfStored(s.disk.config, u.ram.Head(), Indexed(u.ram, r.Time(), junk), false);
    WriteHolds(l, if s.disk.records.Some? then s.disk.records.value else [], 1, r.At(1));
  }

  /** To be written: RAM continues the history, and a power loss before the next store takes the record back, as if
      power had been lost during the populate. */
  lemma UnstoredIsCrash(l: Layout, n: nat, past: Past, h: History, torn: bool, s: State, r: Record, junk: Junk)
    requires 0 < n <= CAPACITY_LIMIT && Refines(l, n, past, h, torn, s) && r.Fits(l)
    ensures s.Valid()
    ensures var t, p := Step(l, s, DoFaultyPopulate(r, NoLoadFault, false, junk)), Placed(n, |h|, r);
            && RamRefines(n, past, h + [p], t.ram)
            && RecordsRefine(l, n, h + [p], false, t.disk.records)
            && PowerCycle(t) == Crash(l, s, Image(p), junk)
  {
    hide Stored, HeaderOf, ValidConfig, Image, ConfigRefines, Ready, Indexed, WithinExtent, IndexRefines, RecordsRefine;
    ReadyRefines(l, n, past, h, torn, s, junk);
    var u := Ready(s, junk);
    LoadedFacts(l, n, past, h, torn, u);
    WrittenRam(l, n, past, h, u, r, junk);
    RecordsAfterWrite(l, n, h, torn, u.disk.records, Placed(n, |h|, r));
  }
}
