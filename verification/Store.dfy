/** The housekeeping store: RAM globals, the two files, and what each operation does to them. */
module Store {
  import opened Machine
  import opened ByteFile
  import opened RecordFile
  import opened ConfigFile

  const CAPACITY_LIMIT := 20160

  /** What a fresh allocation happens to contain. */
  type Junk = nat -> uint32

  datatype Ram = Ram(max: uint16, cursor: uint16, index: seq<uint32>, loaded: bool, temp: uint32)
  {
    function Head(): Header {
      Header(max, cursor, temp)
    }

    predicate InRange() {
      1 <= cursor <= max <= CAPACITY_LIMIT
    }

    /** Cursor within capacity, and the index absent or of exactly the capacity. */
    predicate Valid() {
      InRange() && (index == [] || |index| == max + 1)
    }
  }

  datatype Disk = Disk(records: Option<File>, config: Option<File>)

  datatype State = State(ram: Ram, disk: Disk)
  {
    predicate Valid() {
      match disk.config
      case None => ram.Valid()
      case Some(c) => ram.Valid() && ValidConfig(c)
    }

    /** All that a populate relies on: it gives the index the capacity's size itself. */
    predicate Writable() {
      ram.InRange() && (disk.config.Some? ==> ValidConfig(disk.config.value))
    }
  }

  predicate ValidConfig(f: File) {
    HEADER <= |f| && var h := HeaderOf(f); 1 <= h.cursor <= h.max <= CAPACITY_LIMIT
  }

  /** The header on disk. */
  function HeaderOf(f: File): Header {
    HeaderOver(f, Header(0, 0, 0))
  }

  /** Reading a header that is there overwrites all of memory's. */
  lemma HeaderReached(f: File, mem: Header)
    requires HEADER <= |f|
    ensures HeaderOver(f, mem) == HeaderOf(f)
  {
    assert ReadInto(f, 0, Bytes16(mem.max)) == ReadInto(f, 0, Bytes16(0));
    assert ReadInto(f, 2, Bytes16(mem.cursor)) == ReadInto(f, 2, Bytes16(0));
    assert ReadInto(f, 4, Bytes32(mem.temp)) == ReadInto(f, 4, Bytes32(0));
  }

  lemma HeaderOfStored(c: Option<File>, h: Header, index: seq<uint32>, all: bool)
    requires c.None? || all || h.cursor < |index|
    ensures HEADER <= |Stored(c, h, index, all)| && HeaderOf(Stored(c, h, index, all)) == h
  {
    StoredHeader(c, h, index, all);
    HeaderReadBack(Stored(c, h, index, all), h, Header(0, 0, 0));
  }

  /** RAM as the program image initialises it. */
  function Boot(): Ram {
    Ram(CAPACITY_LIMIT, 1, [], false, 1000)
  }

  /** Power is lost and returns: only the disk survives. */
  function PowerCycle(s: State): State {
    s.(ram := Boot())
  }

  /** The increment with wrap used after every write and after a load. */
  function Next(cursor: uint16, max: uint16): uint16 {
    var c := if cursor == 0xFFFF then 0 else cursor + 1;
    if c > max then 1 else c
  }

  /** load_config when the file exists. */
  function Load(s: State, junk: Junk): (r: State)
    requires s.Valid() && s.disk.config.Some?
    ensures r.Valid() && r.disk == s.disk && |r.ram.index| == r.ram.max + 1
  {
    var f := s.disk.config.value;
    HeaderReached(f, s.ram.Head());
    var h := HeaderOver(f, s.ram.Head());
    var index := IndexOver(f, Resized(s.ram.index, h.max, junk));
    s.(ram := Ram(h.max, Next(h.cursor, h.max), index, s.ram.loaded, h.temp))
  }

  /** load_config when the file exists but the index cannot be allocated: capacity, cursor and debug time have been
      read, the cursor is not advanced, and the index is as it was. */
  function LoadFailed(s: State): (r: State)
    requires s.Valid() && s.disk.config.Some?
    ensures r.Writable()
  {
    var h := HeaderOver(s.disk.config.value, s.ram.Head());
    HeaderReached(s.disk.config.value, s.ram.Head());
    s.(ram := s.ram.(max := h.max, cursor := h.cursor, temp := h.temp))
  }

  /** The lazy load at the head of a populate; without a config file the defaults stay. */
  function Ready(s: State, junk: Junk): (r: State)
    requires s.Valid()
    ensures r.Valid() && r.disk == s.disk && r.ram.loaded
  {
    var t := if !s.ram.loaded && s.disk.config.Some? then Load(s, junk) else s;
    t.(ram := t.ram.(loaded := true))
  }

  /** How a load of an existing configuration file can go wrong. */
  datatype LoadFault = NoLoadFault | ConfigNotOpened | NoMemory

  /** Loading the file calls for an allocation, which fails. */
  predicate LacksMemory(s: State, fault: LoadFault)
    requires s.Valid() && s.disk.config.Some?
  {
    fault.NoMemory? && HeaderOf(s.disk.config.value).max + 1 != |s.ram.index|
  }

  /** The lazy load, whatever becomes of it; the source never tries again. */
  function LoadedBy(s: State, fault: LoadFault, junk: Junk): (r: State)
    requires s.Valid()
    ensures r.Writable() && r.disk == s.disk && r.ram.loaded
    ensures fault.NoLoadFault? ==> r == Ready(s, junk)
  {
    var t := if s.ram.loaded || s.disk.config.None? || fault.ConfigNotOpened? then s
             else if LacksMemory(s, fault) then LoadFailed(s)
             else Load(s, junk);
    t.(ram := t.ram.(loaded := true))
  }

  /** The record file after bytes are written at the start of a slot. */
  function WriteSlot(l: Layout, records: Option<File>, slot: nat, data: seq<uint8>): Option<File>
    requires slot >= 1
  {
    Some(WriteAt(if records.Some? then records.value else [], Offset(l, slot), data))
  }

  /** The index with the new record's time at the cursor. */
  function Indexed(ram: Ram, time: uint32, junk: Junk): (index: seq<uint32>)
    requires ram.InRange()
    ensures |index| == ram.max + 1
  {
    Resized(ram.index, ram.max, junk)[ram.cursor := time]
  }

  /** The body of a populate once the configuration is loaded: record, index, config, cursor. */
  function Written(l: Layout, s: State, r: Record, junk: Junk): State
    requires s.Writable()
  {
    var index := Indexed(s.ram, r.Time(), junk);
    State(s.ram.(index := index, cursor := Next(s.ram.cursor, s.ram.max)),
          Disk(WriteSlot(l, s.disk.records, s.ram.cursor, Image(r.At(s.ram.cursor))),
               Some(Stored(s.disk.config, s.ram.Head(), index, false))))
  }

  /** The same when the configuration file may not be opened to be written: its store is then skipped. */
  function WrittenBy(l: Layout, s: State, r: Record, storable: bool, junk: Junk): State
    requires s.Writable()
  {
    var t := Written(l, s, r, junk);
    if storable then t else t.(disk := t.disk.(config := s.disk.config))
  }

  /** populate_and_store_hk_data, record file writable. */
  function Populate(l: Layout, s: State, r: Record, junk: Junk): State
    requires s.Valid()
  {
    Written(l, Ready(s, junk), r, junk)
  }

  /** populate_and_store_hk_data when the record write fails: the record is lost. The file could not be opened,
      or some bytes of the slot (`partial`) were written before an error. */
  function LostPopulate(l: Layout, s: State, partial: Option<seq<uint8>>, junk: Junk): State
    requires s.Valid()
  {
    Damaged(l, Ready(s, junk), partial)
  }

  /** A failed record write. */
  function Damaged(l: Layout, s: State, partial: Option<seq<uint8>>): State
    requires s.Writable()
  {
    match partial
    case None => s
    case Some(data) => s.(disk := s.disk.(records := WriteSlot(l, s.disk.records, s.ram.cursor, data)))
  }

  /** A populate cut off by a power loss between its record write and its config store; any bytes
      within the slot may have reached the disk. */
  function Crash(l: Layout, s: State, partial: seq<uint8>, junk: Junk): State
    requires s.Valid()
  {
    PowerCycle(LostPopulate(l, s, Some(partial), junk))
  }

  predicate Allowed(capacity: uint16) {
    1 <= capacity <= CAPACITY_LIMIT
  }

  /** set_max_files: growth keeps everything; any other allowed value wipes the store. */
  function SetMax(s: State, capacity: uint16, junk: Junk): State
    requires s.Valid()
  {
    if !Allowed(capacity) then s
    else if s.ram.max < capacity then
      s.(ram := s.ram.(max := capacity, index := Resized(s.ram.index, capacity, junk)))
    else
      var ram := s.ram.(max := capacity, cursor := 1, index := []);
      State(ram, Disk(None, Some(Stored(s.disk.config, ram.Head(), [], true))))
  }

  /** set_max_files cut off by a power loss before its config store: a wipe has removed the record file, and
      nothing else has reached the disk. */
  function SetMaxCutOff(s: State, capacity: uint16): State
    requires s.Valid()
  {
    PowerCycle(if Allowed(capacity) && capacity <= s.ram.max then s.(disk := s.disk.(records := None)) else s)
  }

  // ---------- Reachable states ----------

  datatype Event =
    | DoPopulate(record: Record, junk: Junk)
    | DoFaultyPopulate(record: Record, load: LoadFault, storable: bool, junk: Junk)
    | DoLostPopulate(torn: Option<seq<uint8>>, junk: Junk)
    | DoSetMax(capacity: uint16, junk: Junk)
    | DoSetMaxCutOff(capacity: uint16)
    | DoCrash(partial: seq<uint8>, junk: Junk)
    | DoPowerCycle

  function Step(l: Layout, s: State, e: Event): (t: State)
    requires s.Valid()
  {
    match e
    case DoPopulate(r, junk) => Populate(l, s, r, junk)
    case DoFaultyPopulate(r, load, storable, junk) => WrittenBy(l, LoadedBy(s, load, junk), r, storable, junk)
    case DoLostPopulate(partial, junk) => LostPopulate(l, s, partial, junk)
    case DoSetMax(capacity, junk) => SetMax(s, capacity, junk)
    case DoSetMaxCutOff(capacity) => SetMaxCutOff(s, capacity)
    case DoCrash(partial, junk) => Crash(l, s, partial, junk)
    case DoPowerCycle => PowerCycle(s)
  }

  lemma StoredValid(c: Option<File>, h: Header, index: seq<uint32>, all: bool)
    requires 1 <= h.cursor <= h.max <= CAPACITY_LIMIT
    requires c.None? || all || h.cursor < |index|
    ensures ValidConfig(Stored(c, h, index, all))
  {
    HeaderOfStored(c, h, index, all);
  }

  lemma WrittenValid(l: Layout, s: State, r: Record, junk: Junk)
    requires s.Writable()
    ensures Written(l, s, r, junk).Valid()
  {
    StoredValid(s.disk.config, s.ram.Head(), Indexed(s.ram, r.Time(), junk), false);
  }

  lemma SetMaxValid(s: State, capacity: uint16, junk: Junk)
    requires s.Valid()
    ensures SetMax(s, capacity, junk).Valid()
  {
    if Allowed(capacity) {
      StoredValid(s.disk.config, Header(capacity, 1, s.ram.temp), [], true);
    }
  }

  lemma StepValid(l: Layout, s: State, e: Event)
    requires s.Valid()
    ensures Step(l, s, e).Valid()
  {
    hide Stored, HeaderOf, WriteSlot, Indexed, Resized, Load, LoadFailed;
    match e {
      case DoPopulate(r, junk) => WrittenValid(l, Ready(s, junk), r, junk);
      case DoFaultyPopulate(r, load, _, junk) => WrittenValid(l, LoadedBy(s, load, junk), r, junk);
      case DoSetMax(capacity, junk) => SetMaxValid(s, capacity, junk);
      case _ =>
    }
  }

  /** A run from state s. */
  ghost function Run(l: Layout, s: State, events: seq<Event>): State
    requires s.Valid()
    decreases |events|
  {
    if events == [] then s
    else
      StepValid(l, s, events[0]);
      Run(l, Step(l, s, events[0]), events[1..])
  }

  lemma {:induction false} RunValid(l: Layout, s: State, events: seq<Event>)
    requires s.Valid()
    ensures Run(l, s, events).Valid()
    decreases |events|
  {
    if events != [] {
      StepValid(l, s, events[0]);
      RunValid(l, Step(l, s, events[0]), events[1..]);
    }
  }

  /** A satellite that has never stored housekeeping data. */
  function Blank(): State {
    State(Boot(), Disk(None, None))
  }

  /** Over every run from a blank disk, in RAM and on disk: the cursor lies within the capacity, the
      capacity within the limit, and the index is absent or sized to the capacity, so that the
      accesses at the cursor's slot are in bounds. */
  lemma ReachableInBounds(l: Layout, events: seq<Event>)
    ensures var s := Run(l, Blank(), events);
            && 1 <= s.ram.cursor <= s.ram.max <= 20160
            && (s.ram.index != [] ==> |s.ram.index| == s.ram.max + 1 && s.ram.cursor < |s.ram.index|)
            && (s.disk.config.Some? ==>
                  1 <= HeaderOf(s.disk.config.value).cursor <= HeaderOf(s.disk.config.value).max <= 20160)
  {
    RunValid(l, Blank(), events);
  }
}
