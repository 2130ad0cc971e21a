/** When the source's incremental store leaves the file that a full rewrite would have left: always, at the default
    capacity, because RAM index and config file agree word for word; and after a wipe exactly when nothing of the
    earlier ring is left in the file that is not in RAM. */
module IndexSync {
  import opened Machine
  import opened ByteFile
  import opened RecordFile
  import opened ConfigFile
  import opened Store
  import opened RingMath
  import opened Refinement
  import opened Runs
  import opened Resizing

  /** The config file holds all n + 1 words, for capacity n. */
  ghost predicate FullFile(n: nat, c: File) {
    ValidConfig(c) && HeaderOf(c).max == n && HEADER + 4 * (n + 1) <= |c|
  }

  /** Loaded: the same capacity, and the same words, unused word 0 included. */
  ghost predicate SameWords(n: nat, ram: Ram, c: File) {
    ram.max == n && |ram.index| == n + 1 && forall i :: 0 <= i <= n ==> DiskWord(c, i) == ram.index[i]
  }

  ghost predicate Synced(n: nat, s: State) {
    match s.disk.config
    case None =>
      if s.ram.loaded then s.ram.max == n && s.ram.index == [] && 1 <= s.ram.cursor <= n <= CAPACITY_LIMIT
      else s.ram == Boot() && n == CAPACITY_LIMIT
    case Some(c) =>
      && FullFile(n, c)
      && (if s.ram.loaded then SameWords(n, s.ram, c) && s.ram.Valid() else s.ram == Boot())
  }

  lemma SyncedValid(n: nat, s: State)
    requires Synced(n, s)
    ensures s.Valid()
  {
  }

  lemma LoadSynced(n: nat, s: State, junk: Junk)
    requires s.disk.config.Some? && FullFile(n, s.disk.config.value) && s.ram == Boot()
    ensures s.Valid() && SameWords(n, Ready(s, junk).ram, s.disk.config.value)
  {
    hide HeaderOf, DiskWord, WordOver, Resized;
    var c := s.disk.config.value;
    HeaderReached(c, s.ram.Head());
    var index := Ready(s, junk).ram.index;
    forall i | 0 <= i <= n ensures index[i] == DiskWord(c, i) {
      WordReached(c, i, Resized([], n, junk)[i]);
    }
  }

  /** Where the file reaches, memory plays no part. */
  lemma WordReached(f: File, i: nat, mem: uint32)
    requires HEADER + 4 * i + 4 <= |f|
    ensures WordOver(f, i, mem) == DiskWord(f, i)
  {
    assert ReadInto(f, HEADER + 4 * i, Bytes32(mem)) == DiskBytes(f, i);
  }

  lemma ReadySynced(n: nat, s: State, junk: Junk)
    requires Synced(n, s)
    ensures s.Valid() && Synced(n, Ready(s, junk)) && Ready(s, junk).ram.loaded
  {
    hide SameWords, FullFile, Load;
    SyncedValid(n, s);
    if !s.ram.loaded && s.disk.config.Some? {
      LoadSynced(n, s, junk);
    }
  }

  /** The store of a populate on a loaded, synced state writes the bytes of a full rewrite. */
  lemma StoreIsFull(n: nat, s: State, time: uint32, junk: Junk)
    requires Synced(n, s) && s.ram.loaded && s.Valid()
    ensures var index := Indexed(s.ram, time, junk);
            Stored(s.disk.config, s.ram.Head(), index, false) == Stored(s.disk.config, s.ram.Head(), index, true)
  {
    hide Stored, HeaderOf, ValidConfig, DiskWord;
    var index := Indexed(s.ram, time, junk);
    match s.disk.config {
      case None => NoFileStoredWhole(s.ram.Head(), index);
      case Some(c) =>
        assert MatchesExcept(c, index, s.ram.cursor);
        IncrementalIsFull(c, s.ram.Head(), index);
    }
  }

  lemma NoFileStoredWhole(h: Header, index: seq<uint32>)
    ensures Stored(None, h, index, false) == Stored(None, h, index, true)
  {
  }

  lemma FullStoreSynced(n: nat, c: Option<File>, ram: Ram)
    requires ram.Valid() && ram.max == n && |ram.index| == n + 1
    ensures var f := Stored(c, ram.Head(), ram.index, true);
            FullFile(n, f) && forall i :: 0 <= i <= n ==> DiskWord(f, i) == ram.index[i]
  {
    hide HeaderOf, ValidConfig, DiskWord, WriteAt, WordBytes;
    var f := Stored(c, ram.Head(), ram.index, true);
    StoredValid(c, ram.Head(), ram.index, true);
    HeaderOfStored(c, ram.Head(), ram.index, true);
    forall i | 0 <= i <= n ensures DiskWord(f, i) == ram.index[i] {
      StoredFull(c, ram.Head(), ram.index, true, i);
    }
  }

  lemma WrittenSynced(l: Layout, n: nat, s: State, r: Record, junk: Junk)
    requires Synced(n, s) && s.ram.loaded && s.Valid()
    ensures Synced(n, Written(l, s, r, junk))
  {
    hide Stored, HeaderOf, ValidConfig, DiskWord, FullFile, WriteSlot, Image;
    StoreIsFull(n, s, r.Time(), junk);
    assert s.ram.max == n;
    var ram := s.ram.(index := Indexed(s.ram, r.Time(), junk));
    FullStoreSynced(n, s.disk.config, ram);
    assert ram.Head() == s.ram.Head();
  }

  /** The events that may bring index and file apart: changes of capacity and errors of the configuration file. */
  predicate Desyncs(e: Event) {
    e.DoSetMax? || e.DoSetMaxCutOff? || e.DoFaultyPopulate?
  }

  lemma StepSynced(l: Layout, n: nat, s: State, e: Event)
    requires Synced(n, s) && !Desyncs(e) && (s.disk.config.Some? || n == CAPACITY_LIMIT)
    ensures s.Valid() && Synced(n, Step(l, s, e))
    ensures s.disk.config.Some? ==> Step(l, s, e).disk.config.Some?
  {
    hide SameWords, FullFile, Written, WriteSlot;
    SyncedValid(n, s);
    match e {
      case DoPopulate(r, junk) =>
        ReadySynced(n, s, junk);
        WrittenSynced(l, n, Ready(s, junk), r, junk);
        WrittenHasConfig(l, Ready(s, junk), r, junk);
      case DoLostPopulate(partial, junk) => ReadySynced(n, s, junk);
      case DoCrash(partial, junk) => ReadySynced(n, s, junk);
      case DoPowerCycle =>
    }
  }

  lemma WrittenHasConfig(l: Layout, s: State, r: Record, junk: Junk)
    requires s.Valid()
    ensures Written(l, s, r, junk).disk.config.Some?
  {
  }

  lemma {:induction false} RunSynced(l: Layout, n: nat, s: State, events: seq<Event>)
    requires Synced(n, s) && (s.disk.config.Some? || n == CAPACITY_LIMIT)
    requires forall i :: 0 <= i < |events| ==> !Desyncs(events[i])
    ensures s.Valid() && Synced(n, Run(l, s, events))
    decreases |events|
  {
    hide Synced, Step;
    SyncedValid(n, s);
    if events != [] {
      StepSynced(l, n, s, events[0]);
      RunSynced(l, n, Step(l, s, events[0]), events[1..]);
    }
  }

  /** In every run from a blank disk at the default capacity, with outages, lost records and torn writes, the
      next populate's incremental store leaves exactly the file of a full rewrite. */
  lemma IncrementalIsFullOnRuns(l: Layout, events: seq<Event>, r: Record, junk: Junk)
    requires forall i :: 0 <= i < |events| ==> !Desyncs(events[i])
    ensures Run(l, Blank(), events).Valid()
    ensures var s := Ready(Run(l, Blank(), events), junk);
            Populate(l, Run(l, Blank(), events), r, junk).disk.config
            == Some(Stored(s.disk.config, s.ram.Head(), Indexed(s.ram, r.Time(), junk), true))
  {
    hide Stored, Ready, Indexed, HeaderOf, ValidConfig, FullFile, SameWords, Run;
    RunSynced(l, CAPACITY_LIMIT, Blank(), events);
    var u := Run(l, Blank(), events);
    ReadySynced(CAPACITY_LIMIT, u, junk);
    StoreIsFull(CAPACITY_LIMIT, Ready(u, junk), r.Time(), junk);
  }

  // ---------- Over the remains of an earlier ring ----------

  /** The file matches the index everywhere but at the cursor exactly when it matches in the slots still free, in
      the unused word 0, and in length. */
  lemma MatchesExactly(n: nat, past: Past, h: History, c: File, ram: Ram, time: uint32, junk: Junk)
    requires 0 < n <= CAPACITY_LIMIT && RamRefines(n, past, h, ram) && WordsRefine(n, past, h, c) && ram.Valid()
    ensures MatchesExcept(c, Indexed(ram, time, junk), ram.cursor)
            <==> && (forall i :: |h| + 1 < i <= n ==> past.OnDisk(i) == past.InRam(i))
                 && DiskWord(c, 0) == Indexed(ram, time, junk)[0]
                 && (HEADER + 4 * (n + 1) <= |c| || ram.cursor == n)
  {
    hide DiskWord, Past.OnDisk, Past.InRam, Slot;
    var index := Indexed(ram, time, junk);
    NextSlot(n, |h|);
    forall i | 1 <= i <= n && i != ram.cursor
      ensures i <= |h| ==> DiskWord(c, i) == index[i]
      ensures i > |h| ==> i > |h| + 1 && DiskWord(c, i) == past.OnDisk(i) && index[i] == past.InRam(i)
    {
      if i <= |h| {
        assert Live(n, h, Latest(n, |h|, i));
      } else if h == [] {
        BlankInRam(past, i);
      }
    }
  }

  lemma NextSlot(n: nat, k: nat)
    requires n > 0
    ensures k < n ==> Slot(n, k) == k + 1
  {
  }

  lemma BlankInRam(past: Past, i: nat)
    ensures !past.Reloaded() ==> past.InRam(i) == 0
  {
  }

  /** On every refining store with a config file: the next populate's incremental store leaves the file of a full
      rewrite exactly when the remains of an earlier ring, in the slots still free after it, are in RAM as well. */
  lemma IncrementalIsFullExactly(l: Layout, n: nat, past: Past, h: History, torn: bool, s: State, r: Record,
                                 junk: Junk)
    requires 0 < n <= CAPACITY_LIMIT && Refines(l, n, past, h, torn, s) && s.disk.config.Some?
    ensures s.Valid()
    ensures var c, u := s.disk.config.value, Ready(s, junk);
            var index := Indexed(u.ram, r.Time(), junk);
            Populate(l, s, r, junk).disk.config == Some(Stored(Some(c), u.ram.Head(), index, true))
            <==> && (forall i :: |h| + 1 < i <= n ==> past.OnDisk(i) == past.InRam(i))
                 && DiskWord(c, 0) == index[0]
                 && (HEADER + 4 * (n + 1) <= |c| || u.ram.cursor == n)
  {
    hide Stored, Ready, Indexed, HeaderOf, ValidConfig, DiskWord, MatchesExcept, RamRefines, Retained, WordsRefine,
         Past.OnDisk, Past.InRam;
    ReadyRefines(l, n, past, h, torn, s, junk);
    var c, u := s.disk.config.value, Ready(s, junk);
    LoadedFacts(l, n, past, h, torn, u);
    MatchesExactly(n, past, h, c, u.ram, r.Time(), junk);
    IncrementalIsFull(c, u.ram.Head(), Indexed(u.ram, r.Time(), junk));
  }

  /** The same on every run after a wipe: either power has been lost since, or the old times in the slots still
      free were zero. */
  lemma IncrementalIsFullAfterWipe(l: Layout, s: State, capacity: uint16, junk: Junk, events: seq<Event>, r: Record,
                                   junk': Junk)
    requires l.Valid() && s.Valid() && s.ram.loaded && Allowed(capacity) && capacity <= s.ram.max
    requires SteadyRun(l, events) && WritesFirst(events)
    ensures SetMax(s, capacity, junk).Valid()
    ensures var t, k := Run(l, SetMax(s, capacity, junk), events), |HistoryAfter(capacity, [], events)|;
            && t.Valid() && t.disk.config.Some?
            && var c, u := t.disk.config.value, Ready(t, junk');
               var index := Indexed(u.ram, r.Time(), junk');
               Populate(l, t, r, junk').disk.config == Some(Stored(Some(c), u.ram.Head(), index, true))
               <==> && (AnyLoss(events) || forall i :: k + 1 < i <= capacity ==> OldWord(s.disk.config, i) == 0)
                    && DiskWord(c, 0) == index[0]
                    && (HEADER + 4 * (capacity + 1) <= |c| || u.ram.cursor == capacity)
  {
    hide *;
    SetMaxValid(s, capacity, junk);
    WipedRun(l, s, capacity, junk, events);
    var t, h := Run(l, SetMax(s, capacity, junk), events), HistoryAfter(capacity, [], events);
    RemainsOnDisk(s.disk.config, events, |h| + 1, capacity);
    IncrementalIsFullExactly(l, capacity, PastAfter(Remains(s.disk.config), events), h, TornAfter(false, events), t, r,
                             junk');
  }

  /** The state after such a run. */
  lemma WipedRun(l: Layout, s: State, capacity: uint16, junk: Junk, events: seq<Event>)
    requires l.Valid() && s.Valid() && s.ram.loaded && Allowed(capacity) && capacity <= s.ram.max
    requires SteadyRun(l, events) && WritesFirst(events)
    ensures SetMax(s, capacity, junk).Valid() && 0 < capacity <= CAPACITY_LIMIT
    ensures var t := Run(l, SetMax(s, capacity, junk), events);
            && t.Valid() && t.disk.config.Some?
            && Refines(l, capacity, PastAfter(Remains(s.disk.config), events), HistoryAfter(capacity, [], events),
                       TornAfter(false, events), t)
  {
    hide Refines, SetMax, Remains, Run, SteadyRun, WritesFirst, HistoryAfter, PastAfter, TornAfter;
    WipeExactly(l, s, capacity, junk);
    FirstWrites(l, capacity, Remains(s.disk.config), false, SetMax(s, capacity, junk), events);
    RunValid(l, SetMax(s, capacity, junk), events);
    RetainedFacts(l, capacity, PastAfter(Remains(s.disk.config), events), HistoryAfter(capacity, [], events),
                  TornAfter(false, events), Run(l, SetMax(s, capacity, junk), events));
  }

  lemma RemainsOnDisk(c: Option<File>, events: seq<Event>, k: nat, n: nat)
    ensures var past := PastAfter(Remains(c), events);
            (forall i :: k < i <= n ==> past.OnDisk(i) == past.InRam(i))
            <==> AnyLoss(events) || forall i :: k < i <= n ==> OldWord(c, i) == 0
  {
    hide DiskWord;
    RemainsReturn(c, events, k, n);
    var past := PastAfter(Remains(c), events);
    assert forall i: nat :: past.AfterLoss().InRam(i) == past.OnDisk(i);
  }
}
