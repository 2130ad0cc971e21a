/** Runs that start at slot 2: the first populate after a wipe whose cursor is read back from the file. The store
    behaves as if a record that is nowhere in the record file had been written to slot 1. */
module SkippedSlot {
  import opened Machine
  import opened ByteFile
  import opened RingMath
  import opened RecordFile
  import opened ConfigFile
  import opened Store
  import opened Refinement
  import opened Runs
  import opened Resizing

  /** The record that the file seems to have: slot 1, with the time found there. */
  ghost predicate Phantom(l: Layout, s: State, p: Record) {
    p.Fits(l) && p.timeOrder.dataPosition == 1 && p.Time() == OldWord(s.disk.config, 1)
  }

  /** What the wipe leaves on disk, which the load has brought into RAM. */
  ghost function WipedPast(t: State): Past
    requires t.disk.config.Some?
  {
    Past(t.disk.config.value, true)
  }

  // ---------- A store that has the phantom record ----------

  /** The wiped store after a power cycle, with the phantom record in the file. */
  ghost function WithPhantom(l: Layout, t: State, p: Record): State {
    State(Boot(), Disk(Some(WriteAt([], 0, Image(p))), t.disk.config))
  }

  lemma PhantomRetained(l: Layout, n: nat, p: Record)
    requires l.Valid() && 0 < n <= CAPACITY_LIMIT && p.Fits(l) && p.timeOrder.dataPosition == 1
    ensures Retained(l, n, [p], false, Some(WriteAt([], 0, Image(p))))
  {
    hide Image, SizeOfHousekeeping;
    var f := WriteAt([], 0, Image(p));
    SlotSize(l, p);
    WriteHolds(l, [], 1, p);
    assert Holds(l, Some(f), 1, p);
    assert Extent(n, [p], false) == 1;
  }

  lemma PhantomRefines(l: Layout, s: State, capacity: uint16, junk: Junk, p: Record)
    requires l.Valid() && s.Valid() && Allowed(capacity) && capacity <= s.ram.max && Phantom(l, s, p)
    ensures SetMax(s, capacity, junk).Valid() && SetMax(s, capacity, junk).disk.config.Some?
    ensures var t := SetMax(s, capacity, junk);
            Refines(l, capacity, WipedPast(t), [p], false, WithPhantom(l, t, p))
  {
    hide SetMax, HeaderOf, DiskWord, OldWord, Retained, Image, WriteAt, Stored;
    WipedWords(s, capacity, junk);
    PhantomRetained(l, capacity, p);
  }

  // ---------- Two stores that differ in slot 1 alone ----------

  function Bytes(records: Option<File>): File {
    if records.Some? then records.value else []
  }

  /** The files agree behind the first `size` bytes, and in length unless both end there. */
  ghost predicate AgreeBehind(size: nat, f: File, g: File) {
    && (|f| == |g| || (|f| <= size && |g| <= size))
    && forall i :: size <= i < |f| && i < |g| ==> f[i] == g[i]
  }

  ghost predicate BlankFront(size: nat, f: File) {
    forall i :: 0 <= i < |f| && i < size ==> f[i] == 0
  }

  /** Store a lacks the phantom record of store b, of history h. */
  ghost predicate Lacks(l: Layout, n: nat, h: History, torn: bool, a: State, b: State) {
    && a.ram == b.ram && a.disk.config == b.disk.config
    && b.disk.records.Some? && (torn ==> a.disk.records.Some?)
    && AgreeBehind(SizeOfHousekeeping(l), Bytes(a.disk.records), Bytes(b.disk.records))
    && (Missing(n, h, torn) ==> BlankFront(SizeOfHousekeeping(l), Bytes(a.disk.records)))
    && (|h| > n ==> a == b)
  }

  /** Slot 1 has not been written to. */
  predicate Missing(n: nat, h: History, torn: bool) {
    |h| < n || (|h| == n && !torn)
  }

  lemma WritesAgree(size: nat, f: File, g: File, pos: nat, data: seq<uint8>)
    requires AgreeBehind(size, f, g) && (size <= pos || (pos == 0 && |data| <= size))
    ensures AgreeBehind(size, WriteAt(f, pos, data), WriteAt(g, pos, data))
    ensures pos == 0 && |data| == size > 0 ==> WriteAt(f, pos, data) == WriteAt(g, pos, data)
    ensures size <= pos && BlankFront(size, f) ==> BlankFront(size, WriteAt(f, pos, data))
  {
  }

  /** The position of a slot: the front of the file, or behind it. */
  lemma FrontOrBehind(l: Layout, slot: nat)
    requires slot >= 1
    ensures if slot == 1 then Offset(l, slot) == 0 else SizeOfHousekeeping(l) <= Offset(l, slot)
  {
    if slot > 1 {
      SlotsDisjoint(l, 1, slot);
    }
  }

  /** A write of at most a slot's bytes to both. */
  lemma SlotWritesAgree(l: Layout, fa: Option<File>, fb: Option<File>, slot: nat, data: seq<uint8>)
    requires slot >= 1 && |data| <= SizeOfHousekeeping(l) && SizeOfHousekeeping(l) > 0
    requires AgreeBehind(SizeOfHousekeeping(l), Bytes(fa), Bytes(fb))
    ensures var size, ga, gb := SizeOfHousekeeping(l), WriteSlot(l, fa, slot, data), WriteSlot(l, fb, slot, data);
            && ga.Some? && gb.Some? && AgreeBehind(size, Bytes(ga), Bytes(gb))
            && (slot == 1 && |data| == size ==> ga == gb)
            && (slot != 1 && BlankFront(size, Bytes(fa)) ==> BlankFront(size, Bytes(ga)))
  {
    hide SizeOfHousekeeping, Offset, WriteAt, AgreeBehind, BlankFront;
    FrontOrBehind(l, slot);
    WritesAgree(SizeOfHousekeeping(l), Bytes(fa), Bytes(fb), Offset(l, slot), data);
  }

  lemma SomeSize(l: Layout)
    requires l.Valid()
    ensures SizeOfHousekeeping(l) > 0
  {
  }

  /** Slot 1 is the next one exactly after full turns. */
  lemma NextIsFirst(n: nat, k: nat)
    requires 0 < k <= n
    ensures Slot(n, k) == 1 <==> k == n
  {
  }

  lemma SameReady(a: State, b: State, junk: Junk)
    requires a.Valid() && b.Valid() && a.ram == b.ram && a.disk.config == b.disk.config
    ensures Ready(a, junk).ram == Ready(b, junk).ram
  {
  }

  lemma PopulateLacks(l: Layout, n: nat, past: Past, h: History, torn: bool, a: State, b: State, r: Record,
                      junk: Junk)
    requires 0 < n <= CAPACITY_LIMIT && Refines(l, n, past, h, torn, b) && h != [] && r.Fits(l)
    requires a.Valid() && b.Valid() && Lacks(l, n, h, torn, a, b)
    ensures Lacks(l, n, h + [Placed(n, |h|, r)], false, Populate(l, a, r, junk), Populate(l, b, r, junk))
  {
    hide HeaderOf, ValidConfig, Load, Stored, Indexed, SizeOfHousekeeping, AgreeBehind, BlankFront, WriteSlot, Image,
         Refines;
    var u, p := Ready(b, junk), Placed(n, |h|, r);
    ReadyRefines(l, n, past, h, torn, b, junk);
    LoadedFacts(l, n, past, h, torn, u);
    SameReady(a, b, junk);
    SomeSize(l);
    SlotSize(l, p);
    SlotWritesAgree(l, a.disk.records, b.disk.records, u.ram.cursor, Image(p));
    if |h| <= n {
      NextIsFirst(n, |h|);
    }
  }

  lemma DamageLacks(l: Layout, n: nat, past: Past, h: History, torn: bool, a: State, b: State,
                    partial: Option<seq<uint8>>, junk: Junk)
    requires 0 < n <= CAPACITY_LIMIT && Refines(l, n, past, h, torn, b) && h != []
    requires partial.Some? ==> |partial.value| <= SizeOfHousekeeping(l)
    requires a.Valid() && b.Valid() && Lacks(l, n, h, torn, a, b)
    ensures Lacks(l, n, h, torn || partial.Some?, LostPopulate(l, a, partial, junk), LostPopulate(l, b, partial, junk))
  {
    hide HeaderOf, ValidConfig, Load, SizeOfHousekeeping, AgreeBehind, BlankFront, WriteSlot, Refines;
    var u := Ready(b, junk);
    ReadyRefines(l, n, past, h, torn, b, junk);
    LoadedFacts(l, n, past, h, torn, u);
    SameReady(a, b, junk);
    SomeSize(l);
    if partial.Some? {
      SlotWritesAgree(l, a.disk.records, b.disk.records, u.ram.cursor, partial.value);
      if |h| <= n {
        NextIsFirst(n, |h|);
      }
    }
  }

  lemma LossLacks(l: Layout, n: nat, h: History, torn: bool, a: State, b: State)
    requires Lacks(l, n, h, torn, a, b)
    ensures Lacks(l, n, h, torn, PowerCycle(a), PowerCycle(b))
  {
  }

  lemma StepLacks(l: Layout, n: nat, past: Past, h: History, torn: bool, a: State, b: State, e: Event)
    requires 0 < n <= CAPACITY_LIMIT && Refines(l, n, past, h, torn, b) && h != [] && Steady(l, e)
    requires a.Valid() && b.Valid() && Lacks(l, n, h, torn, a, b)
    ensures Lacks(l, n, Extended(n, h, e), Torn(torn, e), Step(l, a, e), Step(l, b, e))
  {
    hide Refines, Lacks, Populate, LostPopulate, PowerCycle;
    match e {
      case DoPopulate(r, junk) => PopulateLacks(l, n, past, h, torn, a, b, r, junk);
      case DoLostPopulate(partial, junk) => DamageLacks(l, n, past, h, torn, a, b, partial, junk);
      case DoCrash(partial, junk) =>
        DamageLacks(l, n, past, h, torn, a, b, Some(partial), junk);
        LossLacks(l, n, h, true, LostPopulate(l, a, Some(partial), junk), LostPopulate(l, b, Some(partial), junk));
      case DoPowerCycle => LossLacks(l, n, h, torn, a, b);
    }
  }

  lemma {:induction false} RunLacks(l: Layout, n: nat, past: Past, h: History, torn: bool, a: State, b: State,
                                    events: seq<Event>)
    requires 0 < n <= CAPACITY_LIMIT && Refines(l, n, past, h, torn, b) && h != [] && SteadyRun(l, events)
    requires a.Valid() && b.Valid() && Lacks(l, n, h, torn, a, b)
    ensures Lacks(l, n, HistoryAfter(n, h, events), TornAfter(torn, events), Run(l, a, events), Run(l, b, events))
    decreases |events|
  {
    hide Refines, Lacks, Step, State.Valid;
    if events != [] {
      var e, rest := events[0], events[1..];
      assert Steady(l, e);
      assert SteadyRun(l, rest);
      StepLacks(l, n, past, h, torn, a, b, e);
      StepRefines(l, n, past, h, torn, b, e);
      StepValid(l, a, e);
      StepValid(l, b, e);
      RunLacks(l, n, if LosesPower(e) then past.AfterLoss() else past, Extended(n, h, e), Torn(torn, e),
               Step(l, a, e), Step(l, b, e), rest);
    }
  }

  // ---------- What that means for the records ----------

  /** Records behind slot 1 are held by both. */
  lemma HeldBehind(l: Layout, f: File, g: File, slot: nat, r: Record)
    requires slot > 1 && AgreeBehind(SizeOfHousekeeping(l), f, g) && Holds(l, Some(g), slot, r)
    requires |Image(r)| > 0
    ensures Holds(l, Some(f), slot, r)
  {
    hide SizeOfHousekeeping, Image, Offset;
    SlotsDisjoint(l, 1, slot);
    FrontOrBehind(l, slot);
    var pos, b := Offset(l, slot), Image(r);
    assert forall i :: pos <= i < pos + |b| ==> f[i] == g[i];
    assert f[pos..pos + |b|] == g[pos..pos + |b|];
  }

  /** A record that says it is in slot 1 has a byte that is not zero. */
  lemma PositionByte(p: Record)
    requires p.timeOrder.dataPosition == 1
    ensures |Image(p)| >= TIME_SIZE && Image(p)[5] == 1
  {
    var b := Bytes16(1);
    assert b[0] == 1 by {
      assert Word16(b) == 1;
    }
    assert TimeBytes(p.timeOrder)[5] == b[0];
  }

  /** So a blank slot 1 does not hold it. */
  lemma BlankHoldsNothing(l: Layout, f: File, p: Record)
    requires l.Valid() && p.Fits(l) && p.timeOrder.dataPosition == 1 && BlankFront(SizeOfHousekeeping(l), f)
    ensures !Holds(l, Some(f), 1, p)
  {
    hide SizeOfHousekeeping, Image;
    SlotSize(l, p);
    PositionByte(p);
    assert |Image(p)| <= |f| ==> f[..|Image(p)|][5] == f[5] == 0;
  }

  /** All retained records but the phantom are held. */
  lemma OthersHeld(l: Layout, n: nat, h: History, torn: bool, a: State, b: State)
    requires 0 < n <= CAPACITY_LIMIT && Lacks(l, n, h, torn, a, b) && h != []
    requires Retained(l, n, h, torn, b.disk.records)
    ensures forall j :: 0 < j && Live(n, h, j) && !(torn && j + n == |h|) ==>
              Holds(l, a.disk.records, Slot(n, j), h[j])
  {
    hide SizeOfHousekeeping, AgreeBehind, BlankFront, Image, Offset;
    forall j: int | 0 < j && Live(n, h, j) && !(torn && j + n == |h|)
      ensures Holds(l, a.disk.records, Slot(n, j), h[j])
    {
      if |h| <= n {
        NextIsFirst(n, j);
        SlotSize(l, h[j]);
        SomeSize(l);
        assert Holds(l, b.disk.records, Slot(n, j), h[j]);
        HeldBehind(l, Bytes(a.disk.records), b.disk.records.value, Slot(n, j), h[j]);
        StillThere(l, a.disk.records, Slot(n, j), h[j]);
      }
    }
  }

  lemma StillThere(l: Layout, records: Option<File>, slot: nat, r: Record)
    requires slot >= 1 && |Image(r)| > 0 && Holds(l, Some(Bytes(records)), slot, r)
    ensures Holds(l, records, slot, r)
  {
  }

  /** The store without the phantom refines the same history exactly when slot 1 has been written to since. */
  lemma LackingRefines(l: Layout, n: nat, past: Past, h: History, torn: bool, a: State, b: State)
    requires 0 < n <= CAPACITY_LIMIT && Lacks(l, n, h, torn, a, b) && h != [] && h[0].timeOrder.dataPosition == 1
    requires Refines(l, n, past, h, torn, b)
    ensures Refines(l, n, past, h, torn, a) <==> !Missing(n, h, torn)
  {
    hide RamRefines, ConfigRefines, RecordsRefine, WithinExtent, HeaderOf, SizeOfHousekeeping, AgreeBehind, BlankFront;
    if Missing(n, h, torn) {
      PhantomMissing(l, n, h, torn, a.disk.records);
    } else if |h| == n {
      OthersHeld(l, n, h, torn, a, b);
      LackingRetained(l, n, h, a, b);
    }
  }

  lemma PhantomMissing(l: Layout, n: nat, h: History, torn: bool, records: Option<File>)
    requires 0 < n <= CAPACITY_LIMIT && l.Valid() && h != [] && h[0].timeOrder.dataPosition == 1
    requires WellPlaced(l, n, h) && Missing(n, h, torn) && BlankFront(SizeOfHousekeeping(l), Bytes(records))
    ensures !RecordsRefine(l, n, h, torn, records)
  {
    hide SizeOfHousekeeping, BlankFront, Image, Offset;
    BlankHoldsNothing(l, Bytes(records), h[0]);
    assert Live(n, h, 0) && !(torn && 0 + n == |h|) && Slot(n, 0) == 1;
  }

  lemma LackingRetained(l: Layout, n: nat, h: History, a: State, b: State)
    requires 0 < n <= CAPACITY_LIMIT && Lacks(l, n, h, true, a, b) && |h| == n
    requires Retained(l, n, h, true, b.disk.records)
    requires forall j :: 0 < j && Live(n, h, j) && j + n != |h| ==> Holds(l, a.disk.records, Slot(n, j), h[j])
    ensures Retained(l, n, h, true, a.disk.records)
  {
    hide SizeOfHousekeeping, Holds, Offset;
    OffsetMonotone(l, 2, Extent(n, h, true) + 1);
    FrontOrBehind(l, 2);
  }

  // ---------- The runs ----------

  /** After a wipe and a power cycle, every run: the index, capacity and cursor are those of the history with the
      phantom record in front, and every other retained record is held. The store refines that history exactly once
      slot 1 has been written to, that is after a full turn. */
  lemma RunAfterSkippedSlot(l: Layout, s: State, capacity: uint16, junk: Junk, p: Record, events: seq<Event>,
                            junk': Junk)
    requires l.Valid() && s.Valid() && Allowed(capacity) && capacity <= s.ram.max && Phantom(l, s, p)
    requires SteadyRun(l, events)
    ensures SetMax(s, capacity, junk).Valid() && SetMax(s, capacity, junk).disk.config.Some?
    ensures var w := SetMax(s, capacity, junk);
            var t, past := Run(l, PowerCycle(w), events), WipedPast(w);
            var h, torn := HistoryAfter(capacity, [p], events), TornAfter(false, events);
            && t.Valid()
            && RamRefines(capacity, past, h, Ready(t, junk').ram)
            && (forall j :: 0 < j && Live(capacity, h, j) && !(torn && j + capacity == |h|) ==>
                  Holds(l, t.disk.records, Slot(capacity, j), h[j]))
            && (Refines(l, capacity, past, h, torn, t) <==> |h| > capacity || (|h| == capacity && torn))
  {
    hide *;
    PhantomStarts(l, s, capacity, junk, p);
    var w := SetMax(s, capacity, junk);
    var a, b, past := PowerCycle(w), WithPhantom(l, w, p), WipedPast(w);
    var h, torn := HistoryAfter(capacity, [p], events), TornAfter(false, events);
    RunLacks(l, capacity, past, [p], false, a, b, events);
    RunRefines(l, capacity, past, [p], false, b, events);
    WipedPastStays(w, events);
    RunValid(l, a, events);
    RunValid(l, b, events);
    var ta, tb := Run(l, a, events), Run(l, b, events);
    FirstStays(capacity, [p], events);
    LackingFacts(l, capacity, past, h, torn, ta, tb, junk');
    LackingRefines(l, capacity, past, h, torn, ta, tb);
    MissingIs(capacity, h, torn);
  }

  lemma PhantomStarts(l: Layout, s: State, capacity: uint16, junk: Junk, p: Record)
    requires l.Valid() && s.Valid() && Allowed(capacity) && capacity <= s.ram.max && Phantom(l, s, p)
    ensures 0 < capacity <= CAPACITY_LIMIT && p.timeOrder.dataPosition == 1
    ensures SetMax(s, capacity, junk).Valid() && SetMax(s, capacity, junk).disk.config.Some?
    ensures var w := SetMax(s, capacity, junk);
            var a, b := PowerCycle(w), WithPhantom(l, w, p);
            && a.Valid() && b.Valid() && Refines(l, capacity, WipedPast(w), [p], false, b)
            && Restartable(capacity, [p], b) && Lacks(l, capacity, [p], false, a, b)
  {
    hide Refines, HeaderOf, ValidConfig, Image, SizeOfHousekeeping, Stored;
    PhantomRefines(l, s, capacity, junk, p);
    var w := SetMax(s, capacity, junk);
    RefinesValid(l, capacity, WipedPast(w), [p], false, WithPhantom(l, w, p));
    SlotSize(l, p);
  }

  lemma WipedPastStays(w: State, events: seq<Event>)
    requires w.disk.config.Some?
    ensures PastAfter(WipedPast(w), events) == WipedPast(w)
  {
    SettledPast(WipedPast(w), events);
  }

  lemma {:induction false} FirstStays(n: nat, h: History, events: seq<Event>)
    requires 0 < n <= CAPACITY_LIMIT && h != []
    ensures HistoryAfter(n, h, events) != [] && HistoryAfter(n, h, events)[0] == h[0]
    decreases |events|
  {
    if events != [] {
      FirstStays(n, Extended(n, h, events[0]), events[1..]);
    }
  }

  lemma MissingIs(n: nat, h: History, torn: bool)
    ensures Missing(n, h, torn) <==> !(|h| > n || (|h| == n && torn))
  {
  }

  lemma LackingFacts(l: Layout, n: nat, past: Past, h: History, torn: bool, a: State, b: State, junk: Junk)
    requires 0 < n <= CAPACITY_LIMIT && Lacks(l, n, h, torn, a, b) && h != [] && a.Valid() && b.Valid()
    requires Refines(l, n, past, h, torn, b)
    ensures RamRefines(n, past, h, Ready(a, junk).ram)
    ensures forall j :: 0 < j && Live(n, h, j) && !(torn && j + n == |h|) ==>
              Holds(l, a.disk.records, Slot(n, j), h[j])
  {
    hide RamRefines, ConfigRefines, RecordsRefine, WithinExtent, HeaderOf, ValidConfig, SizeOfHousekeeping, Load,
         AgreeBehind, BlankFront, Holds;
    ReadyRefines(l, n, past, h, torn, b, junk);
    SameReady(a, b, junk);
    OthersHeld(l, n, h, torn, a, b);
  }

  /** Without a power cycle the same holds for a store that was not loaded when it was wiped: from the first event
      on its run is the same. */
  lemma UnloadedRunIsSame(l: Layout, s: State, capacity: uint16, junk: Junk, events: seq<Event>)
    requires s.Valid() && !s.ram.loaded && Allowed(capacity) && capacity <= s.ram.max
    requires SteadyRun(l, events) && events != []
    ensures SetMax(s, capacity, junk).Valid() && PowerCycle(SetMax(s, capacity, junk)).Valid()
    ensures Run(l, SetMax(s, capacity, junk), events) == Run(l, PowerCycle(SetMax(s, capacity, junk)), events)
  {
    hide HeaderOf, Written, WriteSlot, SetMax;
    SetMaxValid(s, capacity, junk);
    var w, e := SetMax(s, capacity, junk), events[0];
    assert Steady(l, e);
    forall junk' ensures Ready(w, junk') == Ready(PowerCycle(w), junk') {
      SameLoad(s, capacity, junk, junk');
    }
    assert Step(l, w, e) == Step(l, PowerCycle(w), e);
  }

  lemma SameLoad(s: State, capacity: uint16, junk: Junk, junk': Junk)
    requires s.Valid() && !s.ram.loaded && Allowed(capacity) && capacity <= s.ram.max
    ensures var w := SetMax(s, capacity, junk);
            w.Valid() && PowerCycle(w).Valid() && Ready(w, junk') == Ready(PowerCycle(w), junk')
  {
    hide HeaderOf, Stored, IndexOver, Next;
    WipedWords(s, capacity, junk);
    var w := SetMax(s, capacity, junk);
    HeaderReached(w.disk.config.value, w.ram.Head());
    HeaderReached(w.disk.config.value, Boot().Head());
  }
}
