/** Whole runs at a fixed capacity: populates, lost populates, power cycles and interrupted writes. */
module Runs {
  import opened Machine
  import opened ByteFile
  import opened RingMath
  import opened RecordFile
  import opened ConfigFile
  import opened Store
  import opened Refinement

  /** Events that do not change the capacity, with data of the layout's sizes. */
  ghost predicate Steady(l: Layout, e: Event) {
    match e
    case DoPopulate(r, _) => r.Fits(l)
    case DoFaultyPopulate(_, _, _, _) => false
    case DoCrash(partial, _) => |partial| <= SizeOfHousekeeping(l)
    case DoLostPopulate(torn, _) => torn.Some? ==> |torn.value| <= SizeOfHousekeeping(l)
    case DoSetMax(_, _) => false
    case DoSetMaxCutOff(_) => false
    case DoPowerCycle => true
  }

  ghost predicate SteadyRun(l: Layout, events: seq<Event>) {
    forall i :: 0 <= i < |events| ==> Steady(l, events[i])
  }

  /** Power may be lost in this state: the disk alone determines capacity and cursor. */
  ghost predicate Restartable(n: nat, h: History, s: State) {
    h != [] || (n == CAPACITY_LIMIT && s.disk.config.None?)
  }

  /** The history after one event: only a successful populate extends it. */
  ghost function Extended(n: nat, h: History, e: Event): History
    requires 0 < n <= CAPACITY_LIMIT
  {
    if e.DoPopulate? then h + [Placed(n, |h|, e.record)] else h
  }

  ghost function HistoryAfter(n: nat, h: History, events: seq<Event>): History
    requires 0 < n <= CAPACITY_LIMIT
    decreases |events|
  {
    if events == [] then h else HistoryAfter(n, Extended(n, h, events[0]), events[1..])
  }

  /** Whether a failed write has damaged a slot that no populate has yet rewritten. */
  ghost function Torn(torn: bool, e: Event): bool {
    match e
    case DoPopulate(_, _) => false
    case DoCrash(_, _) => true
    case DoLostPopulate(partial, _) => torn || partial.Some?
    case _ => torn
  }

  ghost function TornAfter(torn: bool, events: seq<Event>): bool
    decreases |events|
  {
    if events == [] then torn else TornAfter(Torn(torn, events[0]), events[1..])
  }

  predicate LosesPower(e: Event) {
    e.DoCrash? || e.DoPowerCycle?
  }

  /** What an earlier ring left: a power loss brings it into the index. */
  ghost function PastAfter(past: Past, events: seq<Event>): Past
    decreases |events|
  {
    if events == [] then past
    else PastAfter(if LosesPower(events[0]) then past.AfterLoss() else past, events[1..])
  }

  lemma StepRefines(l: Layout, n: nat, past: Past, h: History, torn: bool, s: State, e: Event)
    requires 0 < n <= CAPACITY_LIMIT && Refines(l, n, past, h, torn, s)
    requires Steady(l, e) && Restartable(n, h, s)
    ensures s.Valid()
    ensures Refines(l, n, if LosesPower(e) then past.AfterLoss() else past, Extended(n, h, e), Torn(torn, e),
                    Step(l, s, e))
    ensures Restartable(n, Extended(n, h, e), Step(l, s, e))
  {
    hide Refines, Populate, Ready, WriteSlot;
    RefinesValid(l, n, past, h, torn, s);
    match e {
      case DoPopulate(r, junk) => PopulateRefines(l, n, past, h, torn, s, r, junk);
      case DoLostPopulate(partial, junk) => LostRefines(l, n, past, h, torn, s, partial, junk);
      case DoCrash(partial, junk) => CrashRefines(l, n, past, h, torn, s, partial, junk);
      case DoPowerCycle => LossRefines(l, n, past, h, torn, s);
    }
  }

  /** Every run of populates, lost populates, crashes and power cycles keeps the store a refinement
      of the history that the run's successful populates wrote. */
  lemma {:induction false} RunRefines(l: Layout, n: nat, past: Past, h: History, torn: bool, s: State,
                                      events: seq<Event>)
    requires 0 < n <= CAPACITY_LIMIT && Refines(l, n, past, h, torn, s)
    requires SteadyRun(l, events) && Restartable(n, h, s)
    ensures s.Valid()
    ensures Refines(l, n, PastAfter(past, events), HistoryAfter(n, h, events), TornAfter(torn, events),
                    Run(l, s, events))
    ensures Restartable(n, HistoryAfter(n, h, events), Run(l, s, events))
    decreases |events|
  {
    hide Refines, Step, Restartable;
    RefinesValid(l, n, past, h, torn, s);
    if events != [] {
      var e, rest := events[0], events[1..];
      assert Steady(l, e);
      assert SteadyRun(l, rest);
      StepRefines(l, n, past, h, torn, s, e);
      RunRefines(l, n, if LosesPower(e) then past.AfterLoss() else past, Extended(n, h, e), Torn(torn, e),
                 Step(l, s, e), rest);
    }
  }

  lemma BlankRefines(l: Layout)
    requires l.Valid()
    ensures Refines(l, CAPACITY_LIMIT, NoPast, [], false, Blank()) && Restartable(CAPACITY_LIMIT, [], Blank())
  {
  }

  // ---------- What a refining state means, slot by slot ----------

  /** Slot s of a loaded store against the history: its file slot and index slot both hold the latest
      write that went there, which carries s as its position; an index slot not reached is as it was before. */
  ghost predicate SlotHoldsLatest(l: Layout, n: nat, past: Past, h: History, torn: bool, s: State, slot: nat)
    requires 1 <= slot <= n && |s.ram.index| == n + 1
  {
    if slot <= |h| then
      var r := h[Latest(n, |h|, slot)];
      && s.ram.index[slot] == r.Time()
      && r.timeOrder.dataPosition == slot
      && (!(torn && slot == s.ram.cursor) ==> Holds(l, s.disk.records, slot, r))
    else
      s.ram.index[slot] == past.InRam(slot)
  }

  lemma SlotMeaning(l: Layout, n: nat, past: Past, h: History, torn: bool, s: State, slot: nat)
    requires 0 < n <= CAPACITY_LIMIT && Refines(l, n, past, h, torn, s) && s.ram.loaded && h != []
    requires 1 <= slot <= n
    ensures SlotHoldsLatest(l, n, past, h, torn, s, slot)
  {
    if slot <= |h| {
      var j := Latest(n, |h|, slot);
      assert Live(n, h, j);
      if j + n == |h| {
        SlotPeriod(n, j);
      }
    }
  }

  lemma SlotPeriod(n: nat, j: nat)
    requires n > 0
    ensures Slot(n, j + n) == Slot(n, j)
  {
  }

  ghost predicate NonzeroTimes(h: History) {
    forall j :: 0 <= j < |h| ==> h[j].Time() != 0
  }

  /** The source's "haven't made full loop" test is right unless an earlier ring's time is back at the cursor. */
  lemma NotFullTest(l: Layout, n: nat, past: Past, h: History, torn: bool, s: State)
    requires 0 < n <= CAPACITY_LIMIT && Refines(l, n, past, h, torn, s) && s.ram.loaded && h != []
    requires NonzeroTimes(h)
    ensures s.ram.index[s.ram.cursor] == 0 <==> |h| < n && past.InRam(s.ram.cursor) == 0
  {
    var k := |h|;
    if k >= n {
      SlotPeriod(n, k - n);
      assert Live(n, h, k - n);
    }
  }

  /** Whole-run refinement. After any run, once the configuration is loaded, with k records written in all:
      the cursor is (k mod n) + 1, every slot holds the latest write that went to it, in file and index,
      and the not-full test holds exactly while k < n (and no earlier time is back at the cursor). */
  lemma WholeRun(l: Layout, n: nat, past: Past, h: History, torn: bool, s: State, events: seq<Event>, junk: Junk)
    requires 0 < n <= CAPACITY_LIMIT && Refines(l, n, past, h, torn, s)
    requires SteadyRun(l, events) && Restartable(n, h, s)
    ensures s.Valid() && Run(l, s, events).Valid()
    ensures var h', torn', past' := HistoryAfter(n, h, events), TornAfter(torn, events), PastAfter(past, events);
            var t := Ready(Run(l, s, events), junk);
            && t.ram.max == n
            && t.ram.cursor == |h'| % n + 1
            && (h' != [] ==>
                  && |t.ram.index| == n + 1
                  && (forall slot :: 1 <= slot <= n ==> SlotHoldsLatest(l, n, past', h', torn', t, slot))
                  && (NonzeroTimes(h') ==>
                        (t.ram.index[t.ram.cursor] == 0 <==> |h'| < n && past'.InRam(t.ram.cursor) == 0)))
  {
    hide Run, HistoryAfter, TornAfter, PastAfter, Ready, SlotHoldsLatest, Retained, ConfigRefines;
    RunRefines(l, n, past, h, torn, s, events);
    RunValid(l, s, events);
    var h', torn', past' := HistoryAfter(n, h, events), TornAfter(torn, events), PastAfter(past, events);
    var u := Run(l, s, events);
    ReadyRefines(l, n, past', h', torn', u, junk);
    var t := Ready(u, junk);
    SlotIsMod(n, |h'|);
    if h' != [] {
      forall slot | 1 <= slot <= n ensures SlotHoldsLatest(l, n, past', h', torn', t, slot) {
        SlotMeaning(l, n, past', h', torn', t, slot);
      }
      if NonzeroTimes(h') {
        NotFullTest(l, n, past', h', torn', t);
      }
    }
  }

  lemma {:induction false} NothingBefore(events: seq<Event>)
    ensures PastAfter(NoPast, events) == NoPast
    decreases |events|
  {
    if events != [] {
      NothingBefore(events[1..]);
    }
  }

  /** From a satellite that has never stored a record, every run at the default capacity: cursor (k mod N) + 1,
      every slot the latest write there or zero, and the not-full test exact. */
  lemma WholeRunFromBlank(l: Layout, events: seq<Event>, junk: Junk)
    requires l.Valid() && SteadyRun(l, events)
    ensures Run(l, Blank(), events).Valid()
    ensures var h, torn := HistoryAfter(20160, [], events), TornAfter(false, events);
            var t := Ready(Run(l, Blank(), events), junk);
            && t.ram.max == 20160
            && t.ram.cursor == |h| % 20160 + 1
            && (h != [] ==>
                  && |t.ram.index| == 20161
                  && (forall slot :: 1 <= slot <= 20160 ==> SlotHoldsLatest(l, 20160, NoPast, h, torn, t, slot))
                  && (NonzeroTimes(h) ==> (t.ram.index[t.ram.cursor] == 0 <==> |h| < 20160)))
  {
    hide Refines, Run, Ready, SlotHoldsLatest, HistoryAfter, TornAfter, Blank, SteadyRun;
    BlankRefines(l);
    NothingBefore(events);
    WholeRun(l, CAPACITY_LIMIT, NoPast, [], false, Blank(), events, junk);
    NothingReturns();
  }

  lemma NothingReturns()
    ensures forall i: nat :: NoPast.InRam(i) == 0
  {
  }

  // ---------- Recovery ----------

  /** Same capacity, cursor and debug time, and the same index in every slot (element 0 is unused). */
  ghost predicate SameRam(a: Ram, b: Ram) {
    && a.max == b.max && a.cursor == b.cursor && a.temp == b.temp
    && |a.index| == |b.index|
    && forall i :: 1 <= i < |a.index| ==> a.index[i] == b.index[i]
  }

  /** Two RAM images of one history agree exactly when they agree on what was there before. */
  lemma RamDetermined(n: nat, past: Past, past': Past, h: History, a: Ram, b: Ram)
    requires n > 0 && h != [] && RamRefines(n, past, h, a) && RamRefines(n, past', h, b) && a.temp == b.temp
    ensures SameRam(a, b) <==> forall i :: |h| < i <= n ==> past.InRam(i) == past'.InRam(i)
  {
    hide Past.InRam;
    forall i | 1 <= i <= n
      ensures i <= |h| ==> a.index[i] == b.index[i]
      ensures i > |h| ==> a.index[i] == past.InRam(i) && b.index[i] == past'.InRam(i)
    {
      if i <= |h| {
        assert Live(n, h, Latest(n, |h|, i));
      }
    }
  }

  ghost predicate Outage(l: Layout, e: Event) {
    Steady(l, e) && !e.DoPopulate?
  }

  ghost predicate Outages(l: Layout, events: seq<Event>) {
    forall i :: 0 <= i < |events| ==> Outage(l, events[i])
  }

  /** Power cycles, crashes and lost populates change neither the config file nor the history. */
  lemma {:induction false} OutagesKeepHistory(l: Layout, n: nat, h: History, s: State, events: seq<Event>)
    requires 0 < n <= CAPACITY_LIMIT && s.Valid() && Outages(l, events)
    ensures SteadyRun(l, events)
    ensures HistoryAfter(n, h, events) == h
    ensures Run(l, s, events).disk.config == s.disk.config
    decreases |events|
  {
    hide Ready, WriteSlot, ValidConfig;
    if events != [] {
      assert Outage(l, events[0]);
      StepValid(l, s, events[0]);
      OutagesKeepHistory(l, n, h, Step(l, s, events[0]), events[1..]);
      assert SteadyRun(l, events) by {
        assert forall i :: 0 <= i < |events| ==> Outage(l, events[i]) ==> Steady(l, events[i]);
      }
    }
  }

  /** Recovery, exactly: whatever outages follow the last successful populate, the next load rebuilds the
      capacity, the cursor and the whole index that RAM held when it returned, if and only if the outages
      bring no earlier ring's times into slots the history has not reached. */
  lemma RecoveryExactly(l: Layout, n: nat, past: Past, h: History, torn: bool, s: State, outages: seq<Event>,
                        junk: Junk)
    requires 0 < n <= CAPACITY_LIMIT && Refines(l, n, past, h, torn, s) && s.ram.loaded && h != []
    requires Outages(l, outages)
    ensures s.Valid() && Run(l, s, outages).Valid()
    ensures SameRam(Ready(Run(l, s, outages), junk).ram, s.ram)
            <==> forall i :: |h| < i <= n ==> PastAfter(past, outages).InRam(i) == past.InRam(i)
  {
    hide Outages, Run, HistoryAfter, TornAfter, PastAfter, Ready, SameRam, Past.InRam, Retained, RamRefines;
    RefinesValid(l, n, past, h, torn, s);
    OutagesKeepHistory(l, n, h, s, outages);
    RunRefines(l, n, past, h, torn, s, outages);
    RunValid(l, s, outages);
    var t := Run(l, s, outages);
    ReadyRefines(l, n, PastAfter(past, outages), h, TornAfter(torn, outages), t, junk);
    RamDetermined(n, PastAfter(past, outages), past, h, Ready(t, junk).ram, s.ram);
  }

  /** Recovery round trip: on a store that no wipe has left remains in, or that has made a full turn since, or
      whose remains are already in RAM, every outage is recovered from. */
  lemma RecoveryRoundTrip(l: Layout, n: nat, past: Past, h: History, torn: bool, s: State, outages: seq<Event>,
                          junk: Junk)
    requires 0 < n <= CAPACITY_LIMIT && Refines(l, n, past, h, torn, s) && s.ram.loaded && h != []
    requires Outages(l, outages)
    requires past == NoPast || |h| >= n || past.Reloaded()
    ensures s.Valid() && Run(l, s, outages).Valid()
    ensures SameRam(Ready(Run(l, s, outages), junk).ram, s.ram)
  {
    hide Refines, Outages, Ready, SameRam, Run;
    RecoveryExactly(l, n, past, h, torn, s, outages, junk);
    if past == past.AfterLoss() {
      SettledPast(past, outages);
    }
  }

  lemma {:induction false} SettledPast(past: Past, events: seq<Event>)
    requires past == past.AfterLoss()
    ensures PastAfter(past, events) == past
    decreases |events|
  {
    if events != [] {
      SettledPast(past, events[1..]);
    }
  }

  /** Crash consistency: power lost after the record write but before the config store (whatever part of
      the record reached the disk) recovers to the same cursor and index, and every retained record
      outside the reused slot is intact. */
  lemma CrashRecovers(l: Layout, n: nat, past: Past, h: History, s: State, partial: seq<uint8>, junk: Junk,
                      junk': Junk)
    requires 0 < n <= CAPACITY_LIMIT && Refines(l, n, past, h, false, s) && s.ram.loaded && h != []
    requires |partial| <= SizeOfHousekeeping(l)
    ensures s.Valid() && Crash(l, s, partial, junk).Valid()
    ensures var c := Crash(l, s, partial, junk);
            && (SameRam(Ready(c, junk').ram, s.ram)
                <==> forall i :: |h| < i <= n ==> past.AfterLoss().InRam(i) == past.InRam(i))
            && c.disk.config == s.disk.config
            && forall j :: Live(n, h, j) && Slot(n, j) != s.ram.cursor ==>
                 Holds(l, c.disk.records, Slot(n, j), h[j])
  {
    hide SameRam, Past.InRam, RamRefines, HeaderOf, ValidConfig, Ready, WriteSlot;
    RefinesValid(l, n, past, h, false, s);
    LoadedFacts(l, n, past, h, false, s);
    var c, past' := Crash(l, s, partial, junk), past.AfterLoss();
    CrashRefines(l, n, past, h, false, s, partial, junk);
    RefinesValid(l, n, past', h, true, c);
    ReadyRefines(l, n, past', h, true, c, junk');
    RamDetermined(n, past', past, h, Ready(c, junk').ram, s.ram);
    if |h| >= n {
      SlotPeriod(n, |h| - n);
    }
  }

  /** After such a crash the next populate writes the slot the crash had touched, and the store again
      refines the history, extended by the new record. */
  lemma CrashRepaired(l: Layout, n: nat, past: Past, h: History, s: State, partial: seq<uint8>, junk: Junk,
                      r: Record, junk': Junk)
    requires 0 < n <= CAPACITY_LIMIT && Refines(l, n, past, h, false, s) && s.ram.loaded && h != []
    requires |partial| <= SizeOfHousekeeping(l) && r.Fits(l)
    ensures s.Valid() && Crash(l, s, partial, junk).Valid()
    ensures var t := Populate(l, Crash(l, s, partial, junk), r, junk');
            && Refines(l, n, past.AfterLoss(), h + [r.At(s.ram.cursor)], false, t)
            && Holds(l, t.disk.records, s.ram.cursor, r.At(s.ram.cursor))
  {
    hide HeaderOf, ValidConfig, Populate, Crash, Holds, RamRefines, ConfigRefines;
    RefinesValid(l, n, past, h, false, s);
    LoadedFacts(l, n, past, h, false, s);
    CrashRefines(l, n, past, h, false, s, partial, junk);
    RefinesValid(l, n, past.AfterLoss(), h, true, Crash(l, s, partial, junk));
    PopulateRefines(l, n, past.AfterLoss(), h, true, Crash(l, s, partial, junk), r, junk');
    assert Live(n, h + [Placed(n, |h|, r)], |h|);
  }
}
