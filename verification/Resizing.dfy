/** Changing the capacity: what set_max_files keeps, and when the store still refines a history. */
module Resizing {
  import opened Machine
  import opened ByteFile
  import opened RingMath
  import opened RecordFile
  import opened ConfigFile
  import opened Store
  import opened Refinement
  import opened Runs
  import opened Paging
  import opened Fetching

  // ---------- Growth ----------

  /** Growing an index of `size` slots zeroes the new slots and keeps all old ones but the last: that one
      becomes whatever the fresh memory held. */
  lemma GrownIndex(index: seq<uint32>, size: nat, items: nat, junk: Junk)
    requires |index| == size + 1 && 0 < size < items
    ensures var r := Resized(index, items, junk);
            && (forall i :: 1 <= i < size ==> r[i] == index[i])
            && r[size] == junk(size)
            && (forall i :: size < i <= items ==> r[i] == 0)
  {
  }

  /** Growth through set_max_files: the cursor and both files stay, and no slot of the index is lost
      exactly when the fresh memory happens to hold the old last slot's time. */
  lemma GrowthKeeps(s: State, capacity: uint16, junk: Junk)
    requires s.Valid() && Allowed(capacity) && s.ram.max < capacity && s.ram.index != []
    ensures var t := SetMax(s, capacity, junk);
            && t.ram.cursor == s.ram.cursor && t.disk == s.disk && t.ram.max == capacity
            && |t.ram.index| == capacity + 1
            && (forall i :: 1 <= i < s.ram.max ==> t.ram.index[i] == s.ram.index[i])
            && (forall i :: s.ram.max < i <= capacity ==> t.ram.index[i] == 0)
            && ((forall i :: 1 <= i <= s.ram.max ==> t.ram.index[i] == s.ram.index[i])
                <==> junk(s.ram.max) == s.ram.index[s.ram.max])
  {
    GrownIndex(s.ram.index, s.ram.max, capacity, junk);
  }

  /** The slots that stay free after growth to m slots and one populate, in RAM and on disk, hold what `past` says. */
  ghost predicate FreeSlotsHold(s: State, k: nat, m: nat, junk: Junk, past: Past)
    requires m > 0
  {
    var grown := Resized(s.ram.index, m, junk);
    forall i :: k + 1 < i <= m ==>
      KeptWord(s.disk.config, grown, i) == past.OnDisk(i) && grown[i] == past.InRam(i)
  }

  /** Before the ring has filled, positions do not depend on the capacity. */
  lemma SamePlaces(l: Layout, n: nat, m: nat, h: History)
    requires 0 < n <= m && |h| <= n && WellPlaced(l, n, h)
    ensures WellPlaced(l, m, h)
    ensures forall j :: 0 <= j < |h| ==> Slot(m, j) == Slot(n, j) == j + 1
  {
  }

  /** Growth changes neither file. */
  lemma GrownDisk(s: State, m: uint16, junk: Junk)
    requires s.Valid() && s.ram.max < m <= CAPACITY_LIMIT
    ensures SetMax(s, m, junk) == State(s.ram.(max := m, index := Resized(s.ram.index, m, junk)), s.disk)
    ensures SetMax(s, m, junk).Valid()
  {
  }

  lemma FirstTurn(n: nat, k: nat)
    requires k < n
    ensures Slot(n, k) == k + 1
  {
  }

  lemma ResizedStays(index: seq<uint32>, items: nat, junk: Junk)
    requires items > 0 && |index| == items + 1
    ensures Resized(index, items, junk) == index
  {
  }

  /** The index after growth and a populate, before the ring has filled: the written slots but the last keep their
      times, and the free ones are as growth left them. */
  lemma GrownIndexed(n: nat, m: nat, past: Past, h: History, ram: Ram, time: uint32, junk: Junk, junk': Junk)
    requires 0 < n < m <= CAPACITY_LIMIT && RamRefines(n, past, h, ram) && |h| < n
    ensures var grown := ram.(max := m, index := Resized(ram.index, m, junk));
            && grown.Valid() && grown.cursor == |h| + 1
            && var index := Indexed(grown, time, junk');
               && |index| == m + 1 && index[|h| + 1] == time
               && (forall j :: 0 <= j < |h| ==> index[j + 1] == h[j].Time())
               && (forall i :: |h| + 1 < i <= m ==> index[i] == grown.index[i])
  {
    hide Past.InRam;
    var grown := ram.(max := m, index := Resized(ram.index, m, junk));
    if ram.index != [] {
      GrownIndex(ram.index, n, m, junk);
    }
    ResizedStays(grown.index, m, junk');
    forall j | 0 <= j < |h| ensures grown.index[j + 1] == h[j].Time() {
      assert Live(n, h, j);
    }
  }

  /** Before the ring has filled, the index refines exactly when the free slots do. */
  lemma GrownIndexRefines(m: nat, past: Past, h: History, r: Record, index: seq<uint32>)
    requires |h| < m && |index| == m + 1 && index[|h| + 1] == r.Time()
    requires forall j :: 0 <= j < |h| ==> index[j + 1] == h[j].Time()
    ensures IndexRefines(m, past, h + [r], index) <==> forall i :: |h| + 1 < i <= m ==> index[i] == past.InRam(i)
  {
    hide Past.InRam;
    forall j | Live(m, h + [r], j) ensures index[Slot(m, j)] == (h + [r])[j].Time() {
    }
  }

  lemma GrownReady(n: nat, m: nat, past: Past, past': Past, h: History, c: Option<File>, grown: seq<uint32>,
                   index: seq<uint32>)
    requires 0 < n < m <= CAPACITY_LIMIT && |h| < n && |grown| == |index| == m + 1
    requires if c.Some? then ConfigRefines(n, past, h, c.value) else h == []
    requires forall i :: |h| + 1 < i <= m ==> index[i] == grown[i]
    ensures ReadyToStore(m, past', h, c, index)
            <==> forall i :: |h| + 1 < i <= m ==> KeptWord(c, grown, i) == past'.OnDisk(i)
  {
    hide DiskWord, HeaderOf, ValidConfig, Past.OnDisk;
    forall j | Live(m, h, j) ensures c.Some? && DiskWord(c.value, Slot(m, j)) == h[j].Time() {
      assert Live(n, h, j);
    }
    assert forall i :: |h| + 1 < i <= m ==> KeptWord(c, grown, i) == KeptWord(c, index, i);
  }

  lemma GrownRetained(l: Layout, n: nat, m: nat, h: History, torn: bool, records: Option<File>)
    requires 0 < n < m <= CAPACITY_LIMIT && |h| < n && Retained(l, n, h, torn, records)
    ensures Retained(l, m, h, torn, records)
  {
    hide Offset, Image;
    SamePlaces(l, n, m, h);
    forall j | Live(m, h, j) && !(torn && j + m == |h|) ensures Holds(l, records, Slot(m, j), h[j]) {
      assert Live(n, h, j);
    }
    assert Extent(m, h, torn) == Extent(n, h, torn);
  }

  /** What a populate does to a grown store, in RAM and on disk. */
  lemma GrownThenWritten(l: Layout, n: nat, m: uint16, past: Past, h: History, torn: bool, s: State, r: Record,
                         junk: Junk, junk': Junk, past': Past)
    requires 0 < n < m <= CAPACITY_LIMIT && Refines(l, n, past, h, torn, s) && s.ram.loaded && r.Fits(l)
    requires s.Valid() && |h| < n && FreeSlotsHold(s, |h|, m, junk, past')
    ensures SetMax(s, m, junk).Valid()
    ensures var p, t := Placed(m, |h|, r), Written(l, SetMax(s, m, junk), r, junk');
            && RamRefines(m, past', h + [p], t.ram)
            && t.disk.config.Some? && ConfigRefines(m, past', h + [p], t.disk.config.value)
            && HeaderOf(t.disk.config.value).temp == t.ram.temp
  {
    hide Stored, HeaderOf, WriteSlot, ValidConfig, Resized, DiskWord, Retained, IndexRefines, ReadyToStore, Slot,
         WordsRefine, Past.InRam, Past.OnDisk;
    GrownDisk(s, m, junk);
    var g, p := SetMax(s, m, junk), Placed(m, |h|, r);
    var index := Indexed(g.ram, r.Time(), junk');
    GrownIndexed(n, m, past, h, s.ram, r.Time(), junk, junk');
    GrownIndexRefines(m, past', h, p, index);
    GrownReady(n, m, past, past', h, s.disk.config, g.ram.index, index);
    FirstTurn(m, |h|);
    StoredRefines(m, past', h, p, s.disk.config, g.ram.Head(), index);
    SlotNext(m, |h|);
  }

  /** "Data flow unaffected": growth before the ring has filled, then a populate, continues the same
      history at the larger capacity. */
  lemma GrowthContinues(l: Layout, n: nat, m: uint16, past: Past, h: History, torn: bool, s: State, r: Record,
                        junk: Junk, junk': Junk, past': Past)
    requires 0 < n < m <= CAPACITY_LIMIT && Refines(l, n, past, h, torn, s) && s.ram.loaded && r.Fits(l)
    requires s.Valid() && |h| < n && FreeSlotsHold(s, |h|, m, junk, past')
    ensures SetMax(s, m, junk).Valid()
    ensures Refines(l, m, past', h + [Placed(m, |h|, r)], false, Populate(l, SetMax(s, m, junk), r, junk'))
  {
    hide Stored, HeaderOf, ValidConfig, Resized, DiskWord, ConfigRefines, IndexRefines, FreeSlotsHold,
         RecordsRefine, WithinExtent, Image;
    GrownDisk(s, m, junk);
    var g, p := SetMax(s, m, junk), Placed(m, |h|, r);
    GrownThenWritten(l, n, m, past, h, torn, s, r, junk, junk', past');
    GrownRetained(l, n, m, h, torn, s.disk.records);
    FirstTurn(m, |h|);
    FirstTurn(n, |h|);
    RecordsAfterWrite(l, m, h, torn, s.disk.records, p);
    ExtentAfterWrite(l, m, h, torn, s.disk.records, p);
    PlacedStaysPlaced(l, m, h, r);
    LoadedRefines(l, m, past', h + [p], false, Populate(l, g, r, junk'));
  }

  /** After growth of a ring that had filled, RAM refines no continued history. */
  lemma FullGrowthBreaks(l: Layout, n: nat, m: uint16, past: Past, h: History, torn: bool, s: State, r: Record,
                         junk: Junk, junk': Junk, past': Past)
    requires 0 < n < m <= CAPACITY_LIMIT && Refines(l, n, past, h, torn, s) && s.ram.loaded && s.Valid()
    requires NonzeroTimes(h) && r.Time() != 0 && |h| >= n
    ensures SetMax(s, m, junk).Valid()
    ensures !RamRefines(m, past', h + [Placed(m, |h|, r)], Populate(l, SetMax(s, m, junk), r, junk').ram)
  {
    hide Stored, HeaderOf, WriteSlot, ValidConfig, DiskWord, Resized, Retained, ConfigRefines, Past.InRam;
    GrownDisk(s, m, junk);
    var g, h' := SetMax(s, m, junk), h + [Placed(m, |h|, r)];
    var t := Populate(l, g, r, junk').ram;
    GrownIndex(s.ram.index, n, m, junk);
    assert Ready(g, junk') == g && g.ram.index == Resized(s.ram.index, m, junk);
    ResizedStays(g.ram.index, m, junk');
    if |h| + 1 < m {
      assert t.cursor == g.ram.cursor + 1 <= n + 1;
      assert Slot(m, |h'|) == |h'| + 1;
    } else {
      var j := Latest(m, |h'|, m);
      assert Live(m, h', j) && h'[j].Time() != 0;
      assert t.index[m] == 0;
    }
  }

  /** Before the ring has filled, the continued history is refined only over a past that the free slots hold. */
  lemma GrowthNeedsPast(l: Layout, n: nat, m: uint16, past: Past, h: History, torn: bool, s: State, r: Record,
                        junk: Junk, junk': Junk, past': Past)
    requires 0 < n < m <= CAPACITY_LIMIT && Refines(l, n, past, h, torn, s) && s.ram.loaded && s.Valid() && |h| < n
    ensures SetMax(s, m, junk).Valid()
    ensures Refines(l, m, past', h + [Placed(m, |h|, r)], false, Populate(l, SetMax(s, m, junk), r, junk')) ==>
              FreeSlotsHold(s, |h|, m, junk, past')
  {
    hide Stored, HeaderOf, WriteSlot, ValidConfig, Resized, DiskWord, Retained, Past.InRam, Past.OnDisk, Slot;
    GrownDisk(s, m, junk);
    var g := SetMax(s, m, junk);
    var index := Indexed(g.ram, r.Time(), junk');
    GrownIndexed(n, m, past, h, s.ram, r.Time(), junk, junk');
    var t := Populate(l, g, r, junk');
    assert t.ram.index == index && t.disk.config == Some(Stored(s.disk.config, g.ram.Head(), index, false));
    if Refines(l, m, past', h + [Placed(m, |h|, r)], false, t) {
      forall i | |h| + 1 < i <= m
        ensures KeptWord(s.disk.config, g.ram.index, i) == past'.OnDisk(i) && g.ram.index[i] == past'.InRam(i)
      {
        StoredWord(s.disk.config, g.ram.Head(), index, i);
      }
    }
  }

  /** Growth, exactly: for every past, the store continues the history over it if and only if the ring had not filled
      and the slots still free hold what that past says. */
  lemma GrowthExactly(l: Layout, n: nat, m: uint16, past: Past, h: History, torn: bool, s: State, r: Record,
                      junk: Junk, junk': Junk, past': Past)
    requires 0 < n < m <= CAPACITY_LIMIT && Refines(l, n, past, h, torn, s) && s.ram.loaded && r.Fits(l)
    requires NonzeroTimes(h) && r.Time() != 0
    ensures s.Valid() && SetMax(s, m, junk).Valid()
    ensures Refines(l, m, past', h + [Placed(m, |h|, r)], false, Populate(l, SetMax(s, m, junk), r, junk'))
            <==> |h| < n && FreeSlotsHold(s, |h|, m, junk, past')
  {
    hide Populate, SetMax, RamRefines, ConfigRefines, FreeSlotsHold;
    RefinesValid(l, n, past, h, torn, s);
    SetMaxValid(s, m, junk);
    StillLoaded(l, s, m, junk, r, junk');
    if |h| >= n {
      FullGrowthBreaks(l, n, m, past, h, torn, s, r, junk, junk', past');
    } else if FreeSlotsHold(s, |h|, m, junk, past') {
      GrowthContinues(l, n, m, past, h, torn, s, r, junk, junk', past');
    } else {
      GrowthNeedsPast(l, n, m, past, h, torn, s, r, junk, junk', past');
    }
  }

  lemma StillLoaded(l: Layout, s: State, m: uint16, junk: Junk, r: Record, junk': Junk)
    requires s.Valid()
    ensures SetMax(s, m, junk).Valid() && Populate(l, SetMax(s, m, junk), r, junk').ram.loaded
  {
    SetMaxValid(s, m, junk);
  }

  /** The free slots of the grown index are zero. */
  ghost predicate FreeSlotsZero(s: State, k: nat, m: nat, junk: Junk)
    requires m > 0
  {
    forall i :: k + 1 < i <= m ==> Resized(s.ram.index, m, junk)[i] == 0
  }

  /** The free slots of the grown index hold what the file will hold. */
  ghost predicate FreeSlotsStored(s: State, k: nat, m: nat, junk: Junk)
    requires m > 0
  {
    var grown := Resized(s.ram.index, m, junk);
    forall i :: k + 1 < i <= m ==> grown[i] == KeptWord(s.disk.config, grown, i)
  }

  /** Growth is transparent, over some past or other, exactly when the ring had not filled and the free slots of
      the grown index are all zero or all as on disk. */
  lemma GrowthTransparent(l: Layout, n: nat, m: uint16, past: Past, h: History, torn: bool, s: State, r: Record,
                          junk: Junk, junk': Junk)
    requires 0 < n < m <= CAPACITY_LIMIT && Refines(l, n, past, h, torn, s) && s.ram.loaded && r.Fits(l)
    requires NonzeroTimes(h) && r.Time() != 0
    ensures s.Valid() && SetMax(s, m, junk).Valid()
    ensures (exists past' ::
               Refines(l, m, past', h + [Placed(m, |h|, r)], false, Populate(l, SetMax(s, m, junk), r, junk')))
            <==> |h| < n && (FreeSlotsZero(s, |h|, m, junk) || FreeSlotsStored(s, |h|, m, junk))
  {
    hide Refines, Populate, SetMax, FreeSlotsHold, FreeSlotsZero, FreeSlotsStored, NonzeroTimes;
    GrowthExactly(l, n, m, past, h, torn, s, r, junk, junk', past);
    var t, h' := Populate(l, SetMax(s, m, junk), r, junk'), h + [Placed(m, |h|, r)];
    if past' :| Refines(l, m, past', h', false, t) {
      GrowthExactly(l, n, m, past, h, torn, s, r, junk, junk', past');
      HeldPast(s, |h|, m, junk, past');
    }
    if |h| < n && (FreeSlotsZero(s, |h|, m, junk) || FreeSlotsStored(s, |h|, m, junk)) {
      var past' := PastThatHolds(s, |h|, m, junk);
      GrowthExactly(l, n, m, past, h, torn, s, r, junk, junk', past');
    }
  }

  lemma HeldPast(s: State, k: nat, m: nat, junk: Junk, past: Past)
    requires m > 0 && FreeSlotsHold(s, k, m, junk, past)
    ensures FreeSlotsZero(s, k, m, junk) || FreeSlotsStored(s, k, m, junk)
  {
    hide Resized, DiskWord, KeptWord;
    if past.Reloaded() {
      assert FreeSlotsStored(s, k, m, junk);
    } else {
      assert FreeSlotsZero(s, k, m, junk);
    }
  }

  lemma PastThatHolds(s: State, k: nat, m: nat, junk: Junk) returns (past: Past)
    requires m > 0 && (FreeSlotsZero(s, k, m, junk) || FreeSlotsStored(s, k, m, junk))
    ensures FreeSlotsHold(s, k, m, junk, past)
  {
    hide Resized, DiskWord, Stored;
    var grown := Resized(s.ram.index, m, junk);
    match s.disk.config {
      case Some(c) => past := Past(c, !FreeSlotsZero(s, k, m, junk));
      case None =>
        past := Past(Stored(None, Header(0, 0, 0), grown, true), true);
        forall i | k + 1 < i <= m ensures past.OnDisk(i) == grown[i] {
          StoredFull(None, Header(0, 0, 0), grown, true, i);
        }
    }
  }

  /** Growth after k writes leaves the free slots of the index zero: the slot whose time is lost is absent, zero again
      by luck or the next to be written, and no earlier ring's time is in the others. */
  ghost predicate GrowsCleanly(n: nat, k: nat, index: seq<uint32>, junk: Junk) {
    && k < n
    && (index == [] || junk(n) == 0 || k + 1 == n)
    && forall i :: k + 1 < i < n && i < |index| ==> index[i] == 0
  }

  /** The config file holds no times in the free slots after the next one to be written. */
  ghost predicate CleanFrom(c: Option<File>, k: nat, m: nat) {
    forall i :: k + 1 < i <= m ==> OldWord(c, i) == 0
  }

  lemma RemainsInRam(c: Option<File>)
    ensures !Remains(c).Reloaded()
    ensures forall i: nat :: Remains(c).InRam(i) == 0
    ensures forall i: nat :: Remains(c).OnDisk(i) == OldWord(c, i)
  {
  }

  /** Clean growth in those terms: the free slots hold the remains on disk alone, and no past at all if, besides,
      the file is clean. */
  lemma CleanGrowth(s: State, k: nat, m: nat, junk: Junk)
    requires s.Valid() && s.ram.max < m && k < s.ram.max
    ensures FreeSlotsHold(s, k, m, junk, Remains(s.disk.config)) <==> GrowsCleanly(s.ram.max, k, s.ram.index, junk)
    ensures FreeSlotsHold(s, k, m, junk, NoPast)
            <==> GrowsCleanly(s.ram.max, k, s.ram.index, junk) && CleanFrom(s.disk.config, k, m)
  {
    hide DiskWord, Remains, ValidConfig;
    RemainsInRam(s.disk.config);
    ZeroIsClean(s, k, m, junk);
    NothingReturns();
    var grown := Resized(s.ram.index, m, junk);
    assert forall i :: k + 1 < i <= m && grown[i] == 0 ==>
             KeptWord(s.disk.config, grown, i) == OldWord(s.disk.config, i);
    assert forall i: nat :: NoPast.OnDisk(i) == 0;
  }

  lemma ZeroIsClean(s: State, k: nat, m: nat, junk: Junk)
    requires s.ram.Valid() && s.ram.max < m && k < s.ram.max
    ensures FreeSlotsZero(s, k, m, junk) <==> GrowsCleanly(s.ram.max, k, s.ram.index, junk)
  {
    var n, grown := s.ram.max, Resized(s.ram.index, m, junk);
    if s.ram.index != [] {
      GrownIndex(s.ram.index, n, m, junk);
      assert forall i :: k + 1 < i < n ==> grown[i] == s.ram.index[i];
    }
  }

  /** After transparent growth every run that begins with a populate refines the history it continues. */
  lemma RunAfterGrowth(l: Layout, n: nat, m: uint16, past: Past, h: History, torn: bool, s: State, junk: Junk,
                       events: seq<Event>, past': Past)
    requires 0 < n < m <= CAPACITY_LIMIT && Refines(l, n, past, h, torn, s) && s.ram.loaded && s.Valid()
    requires |h| < n && FreeSlotsHold(s, |h|, m, junk, past')
    requires SteadyRun(l, events) && events != [] && events[0].DoPopulate?
    ensures SetMax(s, m, junk).Valid()
    ensures Refines(l, m, PastAfter(past', events), HistoryAfter(m, h, events), TornAfter(torn, events),
                    Run(l, SetMax(s, m, junk), events))
  {
    hide Refines, Populate, SetMax, FreeSlotsHold;
    SetMaxValid(s, m, junk);
    var g, e := SetMax(s, m, junk), events[0];
    assert Steady(l, e);
    assert SteadyRun(l, events[1..]);
    GrowthContinues(l, n, m, past, h, torn, s, e.record, junk, e.junk, past');
    StepValid(l, g, e);
    RunRefines(l, m, past', Extended(m, h, e), false, Step(l, g, e), events[1..]);
  }

  /** Growth reaches the disk only with the next populate: a power cycle before it restores the old capacity,
      cursor and index (exactly when a power cycle does so without growth). */
  lemma GrowthNotPersisted(l: Layout, n: nat, m: uint16, past: Past, h: History, torn: bool, s: State, junk: Junk,
                           junk': Junk)
    requires 0 < n < m <= CAPACITY_LIMIT && Refines(l, n, past, h, torn, s) && s.ram.loaded && h != []
    ensures s.Valid() && SetMax(s, m, junk).Valid() && PowerCycle(SetMax(s, m, junk)).Valid()
    ensures SameRam(Ready(PowerCycle(SetMax(s, m, junk)), junk').ram, s.ram)
            <==> forall i :: |h| < i <= n ==> past.AfterLoss().InRam(i) == past.InRam(i)
  {
    hide ConfigRefines, Retained, Resized, HeaderOf, SameRam, Ready, Past.InRam;
    RefinesValid(l, n, past, h, torn, s);
    GrownDisk(s, m, junk);
    OneOutage(l, n, past, h, torn, s, junk');
    assert PowerCycle(SetMax(s, m, junk)) == PowerCycle(s);
  }

  /** One power cycle after a load. */
  lemma OneOutage(l: Layout, n: nat, past: Past, h: History, torn: bool, s: State, junk: Junk)
    requires 0 < n <= CAPACITY_LIMIT && Refines(l, n, past, h, torn, s) && s.ram.loaded && h != []
    ensures s.Valid() && PowerCycle(s).Valid()
    ensures SameRam(Ready(PowerCycle(s), junk).ram, s.ram)
            <==> forall i :: |h| < i <= n ==> past.AfterLoss().InRam(i) == past.InRam(i)
  {
    hide Refines, SameRam, Ready, Past.InRam;
    RefinesValid(l, n, past, h, torn, s);
    var outages := [DoPowerCycle];
    assert Outage(l, outages[0]);
    RecoveryExactly(l, n, past, h, torn, s, outages, junk);
    assert Run(l, s, outages) == PowerCycle(s) by {
      assert Run(l, PowerCycle(s), outages[1..]) == PowerCycle(s);
    }
    assert PastAfter(past, outages) == past.AfterLoss() by {
      assert PastAfter(past.AfterLoss(), outages[1..]) == past.AfterLoss();
    }
  }

  /** After a power cycle and before the first populate the capacity in RAM is the limit, so that every accepted
      request, growth included, wipes the store. */
  lemma UnloadedGrowthWipes(l: Layout, n: nat, m: uint16, past: Past, h: History, torn: bool, s: State, junk: Junk,
                            junk': Junk)
    requires 0 < n <= CAPACITY_LIMIT && Refines(l, n, past, h, torn, s) && h != [] && Allowed(m)
    ensures PowerCycle(s).Valid() && SetMax(PowerCycle(s), m, junk).Valid()
    ensures var t := SetMax(PowerCycle(s), m, junk);
            && s.disk.records.Some? && t.disk.records.None?
            && Ready(t, junk').ram.max == m && Ready(t, junk').ram.cursor == (if m == 1 then 1 else 2)
  {
    hide Refines, Stored, HeaderOf, ValidConfig, Load;
    RefinesValid(l, n, past, h, torn, s);
    RetainedFacts(l, n, past, h, torn, s);
    SetMaxValid(PowerCycle(s), m, junk);
    WipedLoad(PowerCycle(s), m, junk, junk');
  }

  // ---------- Wipe ----------

  /** The config file keeps no time of an earlier index, except in slot 1. */
  ghost predicate CleanIndexOnDisk(c: Option<File>, n: nat) {
    forall i :: 2 <= i <= n ==> OldWord(c, i) == 0
  }

  lemma WipedWords(s: State, capacity: uint16, junk: Junk)
    requires s.Valid() && Allowed(capacity) && capacity <= s.ram.max
    ensures var t := SetMax(s, capacity, junk);
            && t.Valid() && t.disk.config.Some?
            && HeaderOf(t.disk.config.value) == Header(capacity, 1, s.ram.temp)
            && forall i :: 1 <= i ==> DiskWord(t.disk.config.value, i) == OldWord(s.disk.config, i)
  {
    hide Stored, HeaderOf, ValidConfig, DiskWord, OldWord;
    SetMaxValid(s, capacity, junk);
    var t, h := SetMax(s, capacity, junk), Header(capacity, 1, s.ram.temp);
    HeaderOfStored(s.disk.config, h, [], true);
    forall i | 1 <= i ensures DiskWord(t.disk.config.value, i) == OldWord(s.disk.config, i) {
      StoredFull(s.disk.config, h, [], true, i);
    }
  }

  /** A wipe empties RAM and the record file and points the cursor at slot 1, keeping the old times on disk. The
      store then refines the empty history over those remains exactly when the configuration had been loaded, and
      as a store that never held anything exactly when, besides, the file held no times beyond slot 1. */
  lemma WipeExactly(l: Layout, s: State, capacity: uint16, junk: Junk)
    requires l.Valid() && s.Valid() && Allowed(capacity) && capacity <= s.ram.max
    ensures var t := SetMax(s, capacity, junk);
            && t.Valid() && t.disk.records.None?
            && t.ram == Ram(capacity, 1, [], s.ram.loaded, s.ram.temp)
            && (Refines(l, capacity, Remains(s.disk.config), [], false, t) <==> s.ram.loaded)
            && (Refines(l, capacity, NoPast, [], false, t)
                <==> s.ram.loaded && CleanIndexOnDisk(s.disk.config, capacity))
  {
    hide Stored, HeaderOf, ValidConfig, DiskWord, OldWord;
    WipedWords(s, capacity, junk);
    RemainsInRam(s.disk.config);
    var t, past := SetMax(s, capacity, junk), Remains(s.disk.config);
    assert Retained(l, capacity, [], false, t.disk.records);
    if s.ram.loaded {
      RefinesAfreshExactly(l, capacity, past, [], false, t);
    }
  }

  /** Which slot the first populate after a wipe writes: slot 1, as documented, exactly when the
      configuration had been loaded before the wipe (or the ring has one slot only). */
  lemma FirstSlotAfterWipe(s: State, capacity: uint16, junk: Junk, junk': Junk)
    requires s.Valid() && Allowed(capacity) && capacity <= s.ram.max
    ensures SetMax(s, capacity, junk).Valid()
    ensures Ready(SetMax(s, capacity, junk), junk').ram.cursor == 1 <==> s.ram.loaded || capacity == 1
  {
    hide Stored, HeaderOf, ValidConfig;
    SetMaxValid(s, capacity, junk);
    WipedLoad(s, capacity, junk, junk');
  }

  /** A power cycle between the wipe and the next populate always moves that populate to slot 2. */
  lemma FirstSlotAfterWipeAndOutage(s: State, capacity: uint16, junk: Junk, junk': Junk)
    requires s.Valid() && Allowed(capacity) && capacity <= s.ram.max
    ensures SetMax(s, capacity, junk).Valid() && PowerCycle(SetMax(s, capacity, junk)).Valid()
    ensures Ready(PowerCycle(SetMax(s, capacity, junk)), junk').ram.cursor == (if capacity == 1 then 1 else 2)
  {
    hide Stored, HeaderOf, ValidConfig;
    SetMaxValid(s, capacity, junk);
    WipedLoad(s, capacity, junk, junk');
  }

  lemma WipedLoad(s: State, capacity: uint16, junk: Junk, junk': Junk)
    requires s.Valid() && Allowed(capacity) && capacity <= s.ram.max
    ensures var t := SetMax(s, capacity, junk);
            && t.Valid() && PowerCycle(t).Valid() && t.disk.config.Some?
            && Load(t, junk').ram.cursor == Load(PowerCycle(t), junk').ram.cursor == Next(1, capacity)
            && Load(t, junk').ram.max == capacity
  {
    WipedWords(s, capacity, junk);
    var t := SetMax(s, capacity, junk);
    HeaderReached(t.disk.config.value, t.ram.Head());
    HeaderReached(t.disk.config.value, Boot().Head());
  }

  /** A wipe cut off by a power loss before its config store: the next load gives back capacity, cursor and index
      as if nothing had happened, but the records are gone and every request fails. */
  lemma WipeCutOff(l: Layout, cv: Converters, n: nat, past: Past, h: History, torn: bool, s: State,
                   capacity: uint16, junk: Junk, limit: uint16, start: nat)
    requires 0 < n <= CAPACITY_LIMIT && Refines(l, n, past, h, torn, s) && h != []
    requires Allowed(capacity) && capacity <= s.ram.max && limit > 0 && 1 <= start <= n
    ensures s.Valid() && SetMaxCutOff(s, capacity).Valid()
    ensures var t := Ready(SetMaxCutOff(s, capacity), junk);
            && RamRefines(n, past.AfterLoss(), h, t.ram) && t.ram.max == n
            && Fetch(l, cv, t, limit, start, limit) == Reply(Failure, [])
            && s.disk.records.Some? && t.disk.records.None?
  {
    hide Retained, HeaderOf, ValidConfig, Ready, DiskWord, IndexRefines;
    RefinesValid(l, n, past, h, torn, s);
    RetainedFacts(l, n, past, h, torn, s);
    LossRefines(l, n, past, h, torn, s);
    LoadRefines(n, past.AfterLoss(), h, SetMaxCutOff(s, capacity), junk);
  }

  // ---------- Runs after a wipe ----------

  /** The first record is written before power is lost. */
  ghost predicate WritesFirst(events: seq<Event>)
    decreases |events|
  {
    events != [] && (events[0].DoPopulate? || (events[0].DoLostPopulate? && WritesFirst(events[1..])))
  }

  /** A run from an empty, loaded store. */
  lemma {:induction false} FirstWrites(l: Layout, n: nat, past: Past, torn: bool, s: State, events: seq<Event>)
    requires 0 < n <= CAPACITY_LIMIT && Refines(l, n, past, [], torn, s) && s.ram.loaded
    requires SteadyRun(l, events) && WritesFirst(events)
    ensures s.Valid() && HistoryAfter(n, [], events) != []
    ensures Refines(l, n, PastAfter(past, events), HistoryAfter(n, [], events), TornAfter(torn, events),
                    Run(l, s, events))
    decreases |events|
  {
    hide Refines, Populate, LostPopulate, Crash, PowerCycle, SetMax, SetMaxCutOff;
    RefinesValid(l, n, past, [], torn, s);
    var e, rest := events[0], events[1..];
    assert Steady(l, e);
    assert SteadyRun(l, rest);
    match e {
      case DoPopulate(r, junk) =>
        PopulateRefines(l, n, past, [], torn, s, r, junk);
        RunRefines(l, n, past, Extended(n, [], e), false, Step(l, s, e), rest);
        HistoryGrows(n, Extended(n, [], e), rest);
      case DoLostPopulate(partial, junk) =>
        LostRefines(l, n, past, [], torn, s, partial, junk);
        FirstWrites(l, n, past, Torn(torn, e), Step(l, s, e), rest);
    }
  }

  lemma {:induction false} HistoryGrows(n: nat, h: History, events: seq<Event>)
    requires 0 < n <= CAPACITY_LIMIT
    ensures |h| <= |HistoryAfter(n, h, events)|
    decreases |events|
  {
    if events != [] {
      HistoryGrows(n, Extended(n, h, events[0]), events[1..]);
    }
  }

  /** After a wipe of a loaded store every run that stores a record before power is lost, with any outages after
      that, refines the history it writes at the new capacity; what was left on disk stays in the file until it
      is overwritten, and enters RAM with the first power loss. */
  lemma RunAfterWipe(l: Layout, s: State, capacity: uint16, junk: Junk, events: seq<Event>)
    requires l.Valid() && s.Valid() && s.ram.loaded && Allowed(capacity) && capacity <= s.ram.max
    requires SteadyRun(l, events) && WritesFirst(events)
    ensures SetMax(s, capacity, junk).Valid()
    ensures Refines(l, capacity, PastAfter(Remains(s.disk.config), events), HistoryAfter(capacity, [], events),
                    TornAfter(false, events), Run(l, SetMax(s, capacity, junk), events))
  {
    hide Refines, SetMax, Remains, CleanIndexOnDisk, Run, SteadyRun, WritesFirst;
    WipeExactly(l, s, capacity, junk);
    FirstWrites(l, capacity, Remains(s.disk.config), false, SetMax(s, capacity, junk), events);
  }

  /** The condition of that theorem is needed: in a ring of more than one slot, a first populate after the wipe of a
      store that was not loaded, or after a power loss in between, leaves a store that refines no history of one
      record, over no past. */
  lemma SkippedSlotBreaks(l: Layout, s: State, capacity: uint16, junk: Junk, past: Past, r: Record, junk': Junk)
    requires s.Valid() && Allowed(capacity) && 1 < capacity <= s.ram.max
    ensures SetMax(s, capacity, junk).Valid() && PowerCycle(SetMax(s, capacity, junk)).Valid()
    ensures var w, h := SetMax(s, capacity, junk), [Placed(capacity, 0, r)];
            && (RamRefines(capacity, past, h, Populate(l, w, r, junk').ram) ==> s.ram.loaded)
            && !RamRefines(capacity, past, h, Populate(l, PowerCycle(w), r, junk').ram)
  {
    hide SetMax, Load, IndexRefines, Indexed, Stored, WriteSlot, ValidConfig, HeaderOf;
    WipedLoad(s, capacity, junk, junk');
    WipeKeepsFlag(s, capacity, junk);
    FirstTurn(capacity, 1);
  }

  lemma WipeKeepsFlag(s: State, capacity: uint16, junk: Junk)
    requires s.Valid()
    ensures SetMax(s, capacity, junk).ram.loaded == s.ram.loaded
  {
  }

  ghost predicate AnyLoss(events: seq<Event>)
    decreases |events|
  {
    events != [] && (LosesPower(events[0]) || AnyLoss(events[1..]))
  }

  lemma {:induction false} PastAfterRemains(c: File, reloaded: bool, events: seq<Event>)
    ensures PastAfter(Past(c, reloaded), events) == Past(c, reloaded || AnyLoss(events))
    decreases |events|
  {
    if events != [] {
      PastAfterRemains(c, reloaded || LosesPower(events[0]), events[1..]);
    }
  }

  /** What a power loss would bring into the index after such a run. */
  lemma RemainsReturn(c: Option<File>, events: seq<Event>, k: nat, n: nat)
    ensures var past := PastAfter(Remains(c), events);
            (forall i :: k < i <= n ==> past.AfterLoss().InRam(i) == past.InRam(i))
            <==> AnyLoss(events) || forall i :: k < i <= n ==> OldWord(c, i) == 0
  {
    hide DiskWord;
    match c {
      case None => NothingBefore(events);
      case Some(f) =>
        PastAfterRemains(f, false, events);
        var past := PastAfter(Remains(c), events);
        forall i: nat
          ensures past.AfterLoss().InRam(i) == OldWord(c, i)
          ensures past.InRam(i) == if AnyLoss(events) then OldWord(c, i) else 0
        {
        }
    }
  }

  /** Recovery after a wipe, over any run: the index survives the next power cycle exactly when every old time in
      the file has been overwritten or was zero (a full turn of the ring is enough), or an earlier power loss of
      the run has already brought the old times into RAM. */
  lemma RecoveryAfterWipe(l: Layout, s: State, capacity: uint16, junk: Junk, events: seq<Event>, junk': Junk)
    requires l.Valid() && s.Valid() && s.ram.loaded && Allowed(capacity) && capacity <= s.ram.max
    requires SteadyRun(l, events) && WritesFirst(events)
    ensures SetMax(s, capacity, junk).Valid()
    ensures var t, k := Run(l, SetMax(s, capacity, junk), events), |HistoryAfter(capacity, [], events)|;
            && t.Valid() && PowerCycle(t).Valid()
            && (t.ram.loaded ==>
                  (SameRam(Ready(PowerCycle(t), junk').ram, t.ram)
                   <==> AnyLoss(events) || forall i :: k < i <= capacity ==> OldWord(s.disk.config, i) == 0))
  {
    hide Refines, SetMax, Remains, Run, SteadyRun, WritesFirst, SameRam, Ready, HistoryAfter, OldWord, PastAfter,
         TornAfter, Past.InRam;
    SetMaxValid(s, capacity, junk);
    WipeExactly(l, s, capacity, junk);
    RunAfterWipe(l, s, capacity, junk, events);
    var w := SetMax(s, capacity, junk);
    FirstWrites(l, capacity, Remains(s.disk.config), false, w, events);
    RunValid(l, w, events);
    var t, h := Run(l, w, events), HistoryAfter(capacity, [], events);
    PowerCycleValid(t);
    if t.ram.loaded {
      OneOutage(l, capacity, PastAfter(Remains(s.disk.config), events), h, TornAfter(false, events), t, junk');
      RemainsReturn(s.disk.config, events, |h|, capacity);
    }
  }

  lemma PowerCycleValid(s: State)
    requires s.Valid()
    ensures PowerCycle(s).Valid()
  {
  }
}
