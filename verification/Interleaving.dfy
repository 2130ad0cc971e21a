/** Requests with populates in between: between the turns of the unlocked fetch loop, and between two pages. */
module Interleaving {
  import opened Machine
  import opened ByteFile
  import opened RingMath
  import opened RecordFile
  import opened ConfigFile
  import opened Store
  import opened Refinement
  import opened Runs
  import opened Paging
  import opened Fetching

  // ---------- Between the turns ----------

  /** What the loop sends when its turns see these record files, one after the other. */
  function PagesOver(l: Layout, cv: Converters, n: nat, files: seq<File>, f: Reading): (sent: seq<Record>)
    requires 1 <= f.before <= n && |files| <= f.limit
    ensures |sent| == |files|
    decreases |files|
  {
    if files == [] then []
    else
      var g := Turn(l, cv, n, files[0], f);
      [g.memory] + PagesOver(l, cv, n, files[1..], g)
  }

  /** With the same file at every turn this is the undisturbed loop. */
  lemma {:induction false} UndisturbedPages(l: Layout, cv: Converters, n: nat, files: seq<File>, f: Reading, file: File)
    requires 1 <= f.before <= n && |files| == f.limit && forall i :: 0 <= i < |files| ==> files[i] == file
    ensures PagesOver(l, cv, n, files, f) == Pages(l, cv, n, file, f)
    decreases |files|
  {
    if files != [] {
      UndisturbedPages(l, cv, n, files[1..], Turn(l, cv, n, files[0], f), file);
    }
  }

  lemma PagesOverUnfold(l: Layout, cv: Converters, n: nat, files: seq<File>, f: Reading, i: nat)
    requires 1 <= f.before <= n && i < |files| <= f.limit
    ensures var g := Turn(l, cv, n, files[0], f);
            PagesOver(l, cv, n, files, f)[i] == if i == 0 then g.memory else PagesOver(l, cv, n, files[1..], g)[i - 1]
  {
    hide Turn;
  }

  /** The loop's variables just before turn i, which alone sees file i. */
  lemma {:induction false} ReadingAt(l: Layout, cv: Converters, n: nat, files: seq<File>, f: Reading, top: nat, i: nat)
    returns (g: Reading)
    requires n > 0 && cv.Valid() && f.memory.Fits(l) && f.before == Slot(n, top) && i < |files| <= f.limit && i < top
    ensures g.before == Slot(n, top - i) && g.limit == f.limit - i && g.memory.Fits(l)
    ensures PagesOver(l, cv, n, files, f)[i] == Turn(l, cv, n, files[i], g).memory
    decreases i
  {
    hide *;
    PagesOverUnfold(l, cv, n, files, f, i);
    if i == 0 {
      g := f;
    } else {
      BeforeSlot(n, top);
      TurnFits(l, cv, n, files[0], f);
      g := ReadingAt(l, cv, n, files[1..], Turn(l, cv, n, files[0], f), top - 1, i - 1);
    }
  }

  /** A turn before record `top` sends the latest record in the slot it reads, if that slot is not torn. */
  lemma OneTurn(l: Layout, cv: Converters, n: nat, h: History, torn: bool, file: File, f: Reading, top: nat)
    requires n > 0 && cv.Valid() && WellPlaced(l, n, h) && RecordsRefine(l, n, h, torn, Some(file))
    requires 0 < top <= |h| && f.before == Slot(n, top) && f.limit > 0 && f.memory.Fits(l)
    requires !(torn && Slot(n, top - 1) == Slot(n, |h|))
    ensures Slot(n, top - 1) <= |h|
    ensures Turn(l, cv, n, file, f).memory == Prepared(cv, h[Latest(n, |h|, Slot(n, top - 1))], f.limit > 1)
  {
    hide Image, Offset, Prepared, ReadRecord, WellPlaced;
    SlotAtMost(n, top - 1);
    BeforeSlot(n, top);
    var slot := Slot(n, top - 1);
    var j := Latest(n, |h|, slot);
    assert Live(n, h, j);
    if j + n == |h| {
      SlotPeriod(n, j);
    }
    assert Holds(l, Some(file), slot, h[j]);
    PlacedFits(l, n, h, j);
    ReadHeld(l, file, slot, h[j], f.memory);
  }

  lemma PlacedFits(l: Layout, n: nat, h: History, j: nat)
    requires n > 0 && WellPlaced(l, n, h) && j < |h|
    ensures h[j].Fits(l)
  {
  }

  /** A slot still holds write j after k writes in all exactly while fewer than n have followed. */
  lemma Overtaken(n: nat, k: nat, j: nat)
    requires n > 0 && j < k
    ensures Slot(n, j) <= k
    ensures Latest(n, k, Slot(n, j)) == j <==> k <= j + n
    ensures k > j + n ==> Latest(n, k, Slot(n, j)) >= j + n
    ensures k < j + n ==> Slot(n, j) != Slot(n, k)
  {
    SlotAtMost(n, j);
    var l := Latest(n, k, Slot(n, j));
    if k <= j + n {
      LatestUnique(n, k, j);
    } else if l < j + n {
      SlotDistinct(n, j, l);
    }
    if k < j + n {
      SlotDistinct(n, j, k);
    }
  }

  /** The events of a schedule up to and including those just before turn k. */
  ghost function Upto(schedule: seq<seq<Event>>, k: nat): seq<Event>
    requires k < |schedule|
  {
    (if k == 0 then [] else Upto(schedule, k - 1)) + schedule[k]
  }

  lemma {:induction false} UptoSteady(l: Layout, schedule: seq<seq<Event>>, k: nat)
    requires k < |schedule| && forall i :: 0 <= i < |schedule| ==> SteadyRun(l, schedule[i])
    ensures SteadyRun(l, Upto(schedule, k))
  {
    hide Steady;
    if k > 0 {
      UptoSteady(l, schedule, k - 1);
    }
  }

  /** The record file in a state. */
  function FileIn(s: State): File {
    if s.disk.records.Some? then s.disk.records.value else []
  }

  /** The record file that turn i sees. */
  ghost function FileAt(l: Layout, s: State, schedule: seq<seq<Event>>, i: nat): File
    requires s.Valid() && i < |schedule|
  {
    FileIn(Run(l, s, Upto(schedule, i)))
  }

  /** The record files that the first k turns see. */
  ghost function FilesAt(l: Layout, s: State, schedule: seq<seq<Event>>, k: nat): (files: seq<File>)
    requires s.Valid() && k <= |schedule|
    ensures |files| == k
  {
    if k == 0 then [] else FilesAt(l, s, schedule, k - 1) + [FileAt(l, s, schedule, k - 1)]
  }

  lemma {:induction false} FilesAtTurn(l: Layout, s: State, schedule: seq<seq<Event>>, k: nat, i: nat)
    requires s.Valid() && i < k <= |schedule|
    ensures FilesAt(l, s, schedule, k)[i] == FileAt(l, s, schedule, i)
    decreases k
  {
    hide State.Valid, FileAt;
    if i < k - 1 {
      FilesAtTurn(l, s, schedule, k - 1, i);
    }
  }

  lemma SeenFile(l: Layout, s: State, schedule: seq<seq<Event>>, i: nat)
    requires s.Valid() && i < |schedule|
    ensures FileAt(l, s, schedule, i) == FileIn(Run(l, s, Upto(schedule, i)))
  {
    hide Run, Upto;
  }

  lemma {:induction false} HistoryExtends(n: nat, h: History, events: seq<Event>)
    requires 0 < n <= CAPACITY_LIMIT
    ensures h <= HistoryAfter(n, h, events)
    decreases |events|
  {
    if events != [] {
      HistoryExtends(n, Extended(n, h, events[0]), events[1..]);
    }
  }

  /** The record file after any run. */
  lemma FileAfter(l: Layout, n: nat, past: Past, h: History, torn: bool, s: State, events: seq<Event>)
    requires 0 < n <= CAPACITY_LIMIT && Refines(l, n, past, h, torn, s) && h != [] && SteadyRun(l, events)
    ensures s.Valid()
    ensures var h' := HistoryAfter(n, h, events);
            && h <= h' && WellPlaced(l, n, h')
            && RecordsRefine(l, n, h', TornAfter(torn, events), Some(FileIn(Run(l, s, events))))
  {
    hide Refines, Run, HistoryAfter, TornAfter, PastAfter, WellPlaced, RecordsRefine, SteadyRun;
    RunRefines(l, n, past, h, torn, s, events);
    HistoryExtends(n, h, events);
    RetainedFacts(l, n, PastAfter(past, events), HistoryAfter(n, h, events), TornAfter(torn, events),
                  Run(l, s, events));
  }

  /** What an interrupted most-recent request sends at turn i, unless that turn reads a torn slot. */
  lemma InterleavedSends(l: Layout, cv: Converters, n: nat, past: Past, h: History, torn: bool, s: State,
                         schedule: seq<seq<Event>>, i: nat)
    requires 0 < n <= CAPACITY_LIMIT && Refines(l, n, past, h, torn, s) && s.ram.loaded && s.Valid() && cv.Valid()
    requires forall k :: 0 <= k < |schedule| ==> SteadyRun(l, schedule[k])
    requires i < |schedule| && i < |h|
    requires var h' := HistoryAfter(n, h, Upto(schedule, i));
             !(TornAfter(torn, Upto(schedule, i)) && Slot(n, |h| - 1 - i) == Slot(n, |h'|))
    ensures var start := Reading(s.ram.cursor, |schedule|, ZeroRecord(l));
            var h', slot := HistoryAfter(n, h, Upto(schedule, i)), Slot(n, |h| - 1 - i);
            && h <= h' && slot <= |h'|
            && PagesOver(l, cv, n, FilesAt(l, s, schedule, |schedule|), start)[i]
               == Prepared(cv, h'[Latest(n, |h'|, slot)], i < |schedule| - 1)
  {
    hide *;
    var events, files := Upto(schedule, i), FilesAt(l, s, schedule, |schedule|);
    LoadedFacts(l, n, past, h, torn, s);
    ZeroFits(l);
    UptoSteady(l, schedule, i);
    FileAfter(l, n, past, h, torn, s, events);
    FilesAtTurn(l, s, schedule, |schedule|, i);
    SeenFile(l, s, schedule, i);
    var g := ReadingAt(l, cv, n, files, Reading(s.ram.cursor, |schedule|, ZeroRecord(l)), |h|, i);
    OneTurn(l, cv, n, HistoryAfter(n, h, events), TornAfter(torn, events), files[i], g, |h| - i);
  }

  /** Interleaved paging is stable: with the events schedule[i] (populates, and populates whose record write fails)
      just before turn i of a most-recent request, packet i carries the i-th newest record of the moment the cursor
      was read, exactly when fewer than n - i writes, a torn one at the end included, have come in before its turn;
      otherwise it carries a record written after that moment, or reads the slot of the torn write. */
  lemma InterleavedStable(l: Layout, cv: Converters, n: nat, past: Past, h: History, torn: bool, s: State,
                          schedule: seq<seq<Event>>, i: nat)
    requires 0 < n <= CAPACITY_LIMIT && Refines(l, n, past, h, torn, s) && s.ram.loaded && s.Valid() && cv.Valid()
    requires forall k :: 0 <= k < |schedule| ==> SteadyRun(l, schedule[k])
    requires i < |schedule| <= n && i < |h|
    ensures var start := Reading(s.ram.cursor, |schedule|, ZeroRecord(l));
            var sent := PagesOver(l, cv, n, FilesAt(l, s, schedule, |schedule|), start);
            var h', torn' := HistoryAfter(n, h, Upto(schedule, i)), TornAfter(torn, Upto(schedule, i));
            && h <= h'
            && (|h'| - |h| + (if torn' then 1 else 0) < n - i ==>
                  sent[i] == Prepared(cv, h[|h| - 1 - i], i < |schedule| - 1))
            && (|h'| - |h| + (if torn' then 1 else 0) >= n - i ==>
                  || (exists j :: |h| <= j < |h'| && Slot(n, j) == Slot(n, |h| - 1 - i)
                        && sent[i] == Prepared(cv, h'[j], i < |schedule| - 1))
                  || (torn' && Slot(n, |h'|) == Slot(n, |h| - 1 - i)))
  {
    hide *;
    var h', torn' := HistoryAfter(n, h, Upto(schedule, i)), TornAfter(torn, Upto(schedule, i));
    HistoryExtends(n, h, Upto(schedule, i));
    Overtaken(n, |h'|, |h| - 1 - i);
    if torn' && |h'| == |h| - 1 - i + n {
      SlotPeriod(n, |h| - 1 - i);
    }
    if !(torn' && Slot(n, |h| - 1 - i) == Slot(n, |h'|)) {
      InterleavedSends(l, cv, n, past, h, torn, s, schedule, i);
    }
  }

  // ---------- Two pages ----------

  /** Page composition over the records: a page of p from the cursor, then any run, then a page of q before the
      last id received carry the packets of one request for p + q, while the run has not overtaken them; only
      the `final` flag at the seam differs. */
  lemma PagesCarrySame(l: Layout, cv: Converters, n: nat, past: Past, h: History, torn: bool, s: State, p: uint16,
                       events: seq<Event>, q: uint16)
    requires 0 < n <= CAPACITY_LIMIT && Refines(l, n, past, h, torn, s) && s.ram.loaded && s.Valid() && cv.Valid()
    requires SteadyRun(l, events) && Run(l, s, events).ram.loaded
    requires p >= 1 && q >= 1 && p + q <= |h| && p + q + (if torn then 1 else 0) <= n
    requires |HistoryAfter(n, h, events)| - |h| + p + q + (if TornAfter(torn, events) then 1 else 0) <= n
    ensures Run(l, s, events).Valid() && Run(l, s, events).ram.max == n == s.ram.max
    ensures var last := Ids(n, s.ram.cursor, p)[p - 1];
            var page1 := Fetch(l, cv, s, p, s.ram.cursor, p).sent;
            var page2 := Fetch(l, cv, Run(l, s, events), q, last, q).sent;
            var whole := Fetch(l, cv, s, p + q, s.ram.cursor, p + q).sent;
            && |page1| == p && |page2| == q && |whole| == p + q
            && (forall i :: 0 <= i < p - 1 ==> page1[i] == whole[i])
            && page1[p - 1].(timeOrder := page1[p - 1].timeOrder.(final := 1)) == whole[p - 1]
            && (forall i :: 0 <= i < q ==> page2[i] == whole[p + i])
  {
    hide *;
    var k := |h|;
    LoadedFacts(l, n, past, h, torn, s);
    PageAfterRun(l, cv, n, past, h, torn, s, events, q, k - p);
    PageSends(l, cv, n, past, h, torn, s, p, k);
    PageSends(l, cv, n, past, h, torn, s, p + q, k);
    IdSlot(n, k, p, p - 1);
    PagesJoin(cv, h, k, p, q);
  }

  lemma PagesJoin(cv: Converters, h: History, k: nat, p: nat, q: nat)
    requires p >= 1 && p + q <= k <= |h|
    ensures var page1, page2 := RecordsFor(cv, h, k, p), RecordsFor(cv, h, k - p, q);
            var whole := RecordsFor(cv, h, k, p + q);
            && (forall i :: 0 <= i < p - 1 ==> page1[i] == whole[i])
            && (q >= 1 ==> page1[p - 1].(timeOrder := page1[p - 1].timeOrder.(final := 1)) == whole[p - 1])
            && (forall i :: 0 <= i < q ==> page2[i] == whole[p + i])
  {
  }

  /** A run between pages does not disturb a later page whose records it has not overtaken. */
  lemma PageAfterRun(l: Layout, cv: Converters, n: nat, past: Past, h: History, torn: bool, s: State,
                     events: seq<Event>, q: uint16, top: nat)
    requires 0 < n <= CAPACITY_LIMIT && Refines(l, n, past, h, torn, s) && cv.Valid()
    requires s.Valid() && SteadyRun(l, events) && Run(l, s, events).ram.loaded && 1 <= q <= top <= |h|
    requires |HistoryAfter(n, h, events)| + (if TornAfter(torn, events) then 1 else 0) <= top - q + n
    ensures Run(l, s, events).Valid() && Run(l, s, events).ram.max == n
    ensures Fetch(l, cv, Run(l, s, events), q, Slot(n, top), q) == Reply(Success, RecordsFor(cv, h, top, q))
  {
    hide Refines, Fetch, Run, HistoryAfter, TornAfter, PastAfter, SteadyRun;
    RunRefines(l, n, past, h, torn, s, events);
    var h', t := HistoryAfter(n, h, events), Run(l, s, events);
    RefinesValid(l, n, PastAfter(past, events), h', TornAfter(torn, events), t);
    LoadedFacts(l, n, PastAfter(past, events), h', TornAfter(torn, events), t);
    HistoryExtends(n, h, events);
    PageSends(l, cv, n, PastAfter(past, events), h', TornAfter(torn, events), t, q, top);
    assert RecordsFor(cv, h', top, q) == RecordsFor(cv, h, top, q);
  }
}
