/** The timestamp search on the states that runs produce: what it finds of the history, and of what an earlier ring
    left in slots the history has not reached. */
module HistorySearch {
  import opened Machine
  import opened ByteFile
  import opened RingMath
  import opened RecordFile
  import opened ConfigFile
  import opened Store
  import opened Refinement
  import opened Runs
  import opened Resizing
  import opened TimestampSearch
  import opened Paging
  import opened Fetching
  import opened Requests

  /** One record per housekeeping interval: nonzero times at least 30 seconds apart. */
  ghost predicate SpacedHistory(h: History) {
    && (forall j :: 0 <= j < |h| ==> 0 < h[j].Time())
    && (forall i, j :: 0 <= i < j < |h| ==> Apart(h[i].Time(), h[j].Time()))
  }

  /** The free slot at the cursor holds a time of an earlier ring, so that the source takes the ring for a full one. */
  predicate TakenForFull(n: nat, past: Past, k: nat) {
    k < n && past.InRam(k + 1) != 0
  }

  /** The states in which the slots searched are the retained records in age order: not yet full and not taken for
      full, or just wrapped. */
  predicate InOrder(n: nat, past: Past, k: nat)
    requires n > 0
  {
    if k < n then !TakenForFull(n, past, k) else Slot(n, k) == 1
  }

  /** The record number that slot 1 holds in such a state: the oldest retained one. */
  function Oldest(n: nat, k: nat): nat {
    if k < n then 0 else k - n
  }

  lemma WrappedSlots(n: nat, k: nat, i: nat)
    requires n > 0 && k >= n && Slot(n, k) == 1 && i < n
    ensures Slot(n, k - n + i) == i + 1
  {
    SlotIsMod(n, k);
    SlotIsMod(n, k - n + i);
    DivMod(k, n);
    var q := k / n;
    assert k - n + i == n * (q - 1) + i;
    ModUnique(k - n + i, n, q - 1, i);
  }

  /** In an ordered state, slot i + 1 holds the i-th oldest retained record. */
  lemma OrderedSlot(n: nat, past: Past, h: History, index: seq<uint32>, i: nat)
    requires n > 0 && IndexRefines(n, past, h, index) && InOrder(n, past, |h|) && i < n && i < |h|
    ensures var j := Oldest(n, |h|) + i;
            Live(n, h, j) && Slot(n, j) == i + 1 && index[i + 1] == h[j].Time()
  {
    hide Past.InRam;
    var j := Oldest(n, |h|) + i;
    if |h| >= n {
      WrappedSlots(n, |h|, i);
    }
    assert Live(n, h, j);
  }

  /** In an ordered state the searched part of the index is the retained history, ascending. */
  lemma OrderedIndex(n: nat, past: Past, h: History, index: seq<uint32>)
    requires 0 < n <= CAPACITY_LIMIT && IndexRefines(n, past, h, index) && h != []
    requires SpacedHistory(h) && InOrder(n, past, |h|)
    ensures ValidIndex(index, Slot(n, |h|)) && |index| == n + 1
    ensures var hi := LastSearched(index, Slot(n, |h|));
            && hi == (if |h| < n then |h| else n)
            && Spaced(index, 1, hi)
            && (index[Slot(n, |h|)] == 0 <==> |h| < n)
  {
    hide Past.InRam;
    var cursor := Slot(n, |h|);
    if |h| >= n {
      WrappedSlots(n, |h|, 0);
      OrderedSlot(n, past, h, index, 0);
    }
    var hi := LastSearched(index, cursor);
    forall i, j | 1 <= i < j <= hi ensures Apart(index[i], index[j]) {
      OrderedSlot(n, past, h, index, i - 1);
      OrderedSlot(n, past, h, index, j - 1);
    }
  }

  /** No retained record is closer to t than record j, and of equals j is the oldest. */
  ghost predicate ClosestRecord(n: nat, h: History, j: nat, t: uint32)
    requires j < |h|
  {
    forall i :: Live(n, h, i) ==>
      Distance(h[j].Time(), t) < Distance(h[i].Time(), t)
      || (Distance(h[j].Time(), t) == Distance(h[i].Time(), t) && j <= i)
  }

  /** A query later than the newest record, where the source does not look above the last slot. */
  predicate PastNewest(n: nat, h: History, t: uint32)
    requires h != []
  {
    t > h[|h| - 1].Time() && (|h| < n || n == 1)
  }

  lemma SlotRecord(n: nat, past: Past, h: History, slot: nat) returns (j: nat)
    requires n > 0 && InOrder(n, past, |h|) && 1 <= slot <= n && slot <= |h|
    ensures Live(n, h, j) && Slot(n, j) == slot && j == Oldest(n, |h|) + slot - 1
  {
    j := Oldest(n, |h|) + slot - 1;
    if |h| >= n {
      WrappedSlots(n, |h|, slot - 1);
    }
  }

  /** Slots 1..hi of the index are the retained records, oldest first. */
  ghost predicate OldestFirst(n: nat, h: History, a: seq<uint32>, hi: nat)
    requires n > 0 && hi < |a|
  {
    hi == |h| - Oldest(n, |h|)
    && forall s :: 1 <= s <= hi ==> a[s] == h[Oldest(n, |h|) + s - 1].Time()
  }

  lemma OrderedOldestFirst(n: nat, past: Past, h: History, index: seq<uint32>)
    requires 0 < n <= CAPACITY_LIMIT && IndexRefines(n, past, h, index) && h != []
    requires SpacedHistory(h) && InOrder(n, past, |h|)
    ensures ValidIndex(index, Slot(n, |h|)) && OldestFirst(n, h, index, LastSearched(index, Slot(n, |h|)))
  {
    hide IndexRefines, SpacedHistory, Slot, LastSearched, Spaced, InOrder;
    OrderedIndex(n, past, h, index);
    var hi := LastSearched(index, Slot(n, |h|));
    forall s | 1 <= s <= hi ensures index[s] == h[Oldest(n, |h|) + s - 1].Time() {
      OrderedSlot(n, past, h, index, s - 1);
    }
  }

  lemma ClosestTransfers(n: nat, h: History, a: seq<uint32>, hi: nat, r: nat, t: uint32)
    requires n > 0 && hi < |a| && OldestFirst(n, h, a, hi) && Closest(a, hi, r, t)
    ensures ClosestRecord(n, h, Oldest(n, |h|) + r - 1, t)
  {
    var j := Oldest(n, |h|) + r - 1;
    forall i: int | Live(n, h, i)
      ensures Distance(h[j].Time(), t) < Distance(h[i].Time(), t)
              || (Distance(h[j].Time(), t) == Distance(h[i].Time(), t) && j <= i)
    {
      var s := i - Oldest(n, |h|) + 1;
      assert a[s] == h[i].Time() && a[r] == h[j].Time();
    }
  }

  lemma FarTransfers(n: nat, h: History, a: seq<uint32>, hi: nat, t: uint32)
    requires n > 0 && hi < |a| && OldestFirst(n, h, a, hi)
    ensures (forall i :: 1 <= i <= hi ==> Distance(a[i], t) > THRESHOLD)
            <==> (forall j :: Live(n, h, j) ==> Distance(h[j].Time(), t) > THRESHOLD)
  {
    if forall i :: 1 <= i <= hi ==> Distance(a[i], t) > THRESHOLD {
      forall j: int | Live(n, h, j) ensures Distance(h[j].Time(), t) > THRESHOLD {
        assert a[j - Oldest(n, |h|) + 1] == h[j].Time();
      }
    }
    if forall j :: Live(n, h, j) ==> Distance(h[j].Time(), t) > THRESHOLD {
      forall i | 1 <= i <= hi ensures Distance(a[i], t) > THRESHOLD {
        assert Live(n, h, Oldest(n, |h|) + i - 1);
      }
    }
  }

  /** Exactness over the history, whatever an earlier ring has left in the slots not searched: in every ordered state
      with spaced records, an answer is the slot of the closest retained record, within the threshold; there is none
      exactly when no retained record is within the threshold, or the query is past the newest record of a ring not
      full or of one slot. */
  lemma SearchOverHistory(n: nat, past: Past, h: History, ram: Ram, t: uint32)
    requires 0 < n <= CAPACITY_LIMIT && RamRefines(n, past, h, ram) && h != [] && SpacedHistory(h)
    requires InOrder(n, past, |h|) && InReach(t, h[|h| - 1].Time())
    ensures ValidIndex(ram.index, ram.cursor)
    ensures var r := FileId(ram.index, ram.cursor, t);
            && (r != 0 ==> exists j :: Live(n, h, j) && Slot(n, j) == r
                             && Distance(h[j].Time(), t) <= THRESHOLD && ClosestRecord(n, h, j, t))
            && (r == 0 <==>
                  (PastNewest(n, h, t) || forall j :: Live(n, h, j) ==> Distance(h[j].Time(), t) > THRESHOLD))
  {
    hide FileId, Spaced, IndexRefines, Slot, SpacedHistory, OldestFirst, InOrder, LastSearched, Distance;
    OrderedIndex(n, past, h, ram.index);
    OrderedOldestFirst(n, past, h, ram.index);
    NewestIsLast(n, h, ram.index, LastSearched(ram.index, ram.cursor));
    SearchExact(ram.index, ram.cursor, t);
    ExactOverHistory(n, past, h, ram.index, ram.cursor, t);
  }

  lemma NewestIsLast(n: nat, h: History, a: seq<uint32>, hi: nat)
    requires n > 0 && hi < |a| && h != [] && OldestFirst(n, h, a, hi)
    ensures a[hi] == h[|h| - 1].Time()
  {
  }

  /** An exact answer on the index, in terms of the history. */
  lemma ExactOverHistory(n: nat, past: Past, h: History, a: seq<uint32>, cursor: nat, t: uint32)
    requires n > 0 && h != [] && InOrder(n, past, |h|) && |a| == n + 1 && ValidIndex(a, cursor)
    requires var hi := LastSearched(a, cursor); hi > 0 && OldestFirst(n, h, a, hi) && hi <= |h|
    requires ExactAnswer(a, cursor, t) && (a[cursor] == 0 <==> |h| < n)
    ensures var r := FileId(a, cursor, t);
            && (r != 0 ==> exists j :: Live(n, h, j) && Slot(n, j) == r
                             && Distance(h[j].Time(), t) <= THRESHOLD && ClosestRecord(n, h, j, t))
            && (r == 0 <==>
                  (PastNewest(n, h, t) || forall j :: Live(n, h, j) ==> Distance(h[j].Time(), t) > THRESHOLD))
  {
    hide FileId, ClosestRecord, Slot, InOrder, LastSearched, Distance;
    var r, hi := FileId(a, cursor, t), LastSearched(a, cursor);
    FarTransfers(n, h, a, hi, t);
    NewestIsLast(n, h, a, hi);
    if r != 0 {
      ClosestTransfers(n, h, a, hi, r, t);
      var j := SlotRecord(n, past, h, r);
    }
  }

  lemma FindsInOrder(n: nat, past: Past, h: History, ram: Ram, j: nat)
    requires 0 < n <= CAPACITY_LIMIT && RamRefines(n, past, h, ram) && SpacedHistory(h)
    requires Live(n, h, j) && InOrder(n, past, |h|)
    ensures ValidIndex(ram.index, ram.cursor)
    ensures FileId(ram.index, ram.cursor, h[j].Time()) == Slot(n, j)
  {
    hide FileId, IndexRefines, Slot, InOrder;
    var t := h[j].Time();
    SearchOverHistory(n, past, h, ram, t);
    assert Distance(h[j].Time(), t) == 0;
    assert !PastNewest(n, h, t) by {
      assert j < |h| - 1 ==> Apart(h[j].Time(), h[|h| - 1].Time());
    }
    var r := FileId(ram.index, ram.cursor, t);
    assert r != 0;
    var i :| Live(n, h, i) && Slot(n, i) == r && ClosestRecord(n, h, i, t);
    ClosestToOwnTime(n, h, i, j);
  }

  lemma OnlyOwnNear(h: History, i: nat, j: nat)
    requires SpacedHistory(h) && i < |h| && j < |h| && Distance(h[i].Time(), h[j].Time()) <= THRESHOLD
    ensures i == j
  {
  }

  /** In a spaced history only record j itself is closest to its time. */
  lemma ClosestToOwnTime(n: nat, h: History, i: nat, j: nat)
    requires SpacedHistory(h) && i < |h| && Live(n, h, j) && ClosestRecord(n, h, i, h[j].Time())
    ensures i == j
  {
    assert Distance(h[i].Time(), h[j].Time()) <= Distance(h[j].Time(), h[j].Time());
    OnlyOwnNear(h, i, j);
  }

  /** A full ring's index, read from the cursor around, is the retained history. */
  lemma FullRingInAgeOrder(n: nat, past: Past, h: History, index: seq<uint32>)
    requires 0 < n <= CAPACITY_LIMIT && IndexRefines(n, past, h, index) && SpacedHistory(h) && |h| >= n
    ensures FullInAgeOrder(index, Slot(n, |h|))
    ensures forall m :: 1 <= m <= n ==> AgedSlot(n, Slot(n, |h|), m) == Slot(n, |h| - n + m - 1)
  {
    hide Past.InRam;
    var cursor, k := Slot(n, |h|), |h|;
    forall m | 1 <= m <= n
      ensures AgedSlot(n, cursor, m) == Slot(n, k - n + m - 1)
      ensures Aged(index, cursor)[m] == h[k - n + m - 1].Time()
    {
      AgedIsOrder(n, k, m);
      assert Live(n, h, k - n + m - 1);
    }
    forall i | 1 <= i <= n ensures index[i] != 0 {
      assert Live(n, h, Latest(n, k, i));
    }
  }

  lemma {:induction false} AgedIsOrder(n: nat, k: nat, m: nat)
    requires n > 0 && k >= n && 1 <= m <= n
    ensures AgedSlot(n, Slot(n, k), m) == Slot(n, k - n + m - 1)
    decreases m
  {
    if m > 1 {
      AgedIsOrder(n, k, m - 1);
      SlotNext(n, k - n + m - 2);
    }
  }

  /** The search by age that the source's comments intend finds every record of every full ring. */
  lemma AgeOrderFindsAll(n: nat, past: Past, h: History, ram: Ram, j: nat)
    requires 1 < n <= CAPACITY_LIMIT && RamRefines(n, past, h, ram) && SpacedHistory(h) && |h| >= n && Live(n, h, j)
    ensures ValidIndex(ram.index, ram.cursor)
    ensures AgeOrderFileId(ram.index, ram.cursor, h[j].Time()) == Slot(n, j)
  {
    hide AgeOrderFileId, FullInAgeOrder, Past.InRam;
    var a, t := ram.index, h[j].Time();
    FullRingInAgeOrder(n, past, h, a);
    AgeOrderExact(a, ram.cursor, t);
    assert a[Slot(n, j)] == t && Distance(t, t) == 0;
    var r := AgeOrderFileId(a, ram.cursor, t);
    var i := Latest(n, |h|, r);
    assert Live(n, h, i) && a[r] == h[i].Time();
    OnlyOwnNear(h, i, j);
    LatestUnique(n, |h|, j);
  }

  // ---------- Which records are found ----------

  /** What is left of an earlier ring, if it is searched, is older than the history. */
  ghost predicate RemainsOlder(n: nat, past: Past, h: History)
    requires h != []
  {
    TakenForFull(n, past, |h|) ==> forall i :: |h| < i <= n ==> past.InRam(i) < h[0].Time()
  }

  /** Record j can be found by its own time: the ring is neither full nor taken for full, or the bisection for the
      record's slot compares only slots on its side of the cursor. */
  predicate Findable(n: nat, past: Past, k: nat, j: nat)
    requires n > 0
  {
    || (k < n && !TakenForFull(n, past, k))
    || StaysOnSide(Bounds(1, n), Slot(n, k), Slot(n, j), Slot(n, j))
  }

  lemma SlotTime(n: nat, past: Past, h: History, index: seq<uint32>, s: nat)
    requires n > 0 && IndexRefines(n, past, h, index) && 1 <= s <= n && s <= |h|
    ensures var j := Latest(n, |h|, s); Live(n, h, j) && Slot(n, j) == s && index[s] == h[j].Time()
  {
    assert Live(n, h, Latest(n, |h|, s));
  }

  /** An index taken for full: the history's times up to the cursor, older ones behind. */
  lemma TakenIndex(n: nat, past: Past, h: History, index: seq<uint32>)
    requires 0 < n <= CAPACITY_LIMIT && IndexRefines(n, past, h, index) && h != [] && SpacedHistory(h)
    requires TakenForFull(n, past, |h|) && RemainsOlder(n, past, h)
    ensures Slot(n, |h|) == |h| + 1 && NewThenOld(index, |h| + 1) && index[|h| + 1] != 0
  {
    hide Past.InRam;
    forall s | 1 <= s <= |h| ensures index[s] == h[s - 1].Time() {
      assert Live(n, h, s - 1);
    }
  }

  lemma IndexIsValid(n: nat, past: Past, h: History, index: seq<uint32>)
    requires 0 < n <= CAPACITY_LIMIT && IndexRefines(n, past, h, index)
    ensures ValidIndex(index, Slot(n, |h|)) && |index| == n + 1
  {
  }

  /** On every reached state with spaced records, newer than what an earlier ring left: which retained records the
      search finds by their own time. */
  lemma FoundByOwnTimeExactly(n: nat, past: Past, h: History, ram: Ram, j: nat)
    requires 0 < n <= CAPACITY_LIMIT && RamRefines(n, past, h, ram) && SpacedHistory(h) && Live(n, h, j)
    requires RemainsOlder(n, past, h)
    ensures ValidIndex(ram.index, ram.cursor)
    ensures FileId(ram.index, ram.cursor, h[j].Time()) == Slot(n, j) <==> Findable(n, past, |h|, j)
  {
    hide FileId, IndexRefines, FullInAgeOrder, NewThenOld, StaysOnSide, Slot, SpacedHistory, TakenForFull, RemainsOlder;
    IndexIsValid(n, past, h, ram.index);
    LatestUnique(n, |h|, j);
    SlotTime(n, past, h, ram.index, Slot(n, j));
    if |h| >= n {
      NotTaken(n, past, |h|);
      FullRingInAgeOrder(n, past, h, ram.index);
      FoundExactly(ram.index, ram.cursor, Slot(n, j));
    } else if TakenForFull(n, past, |h|) {
      TakenIndex(n, past, h, ram.index);
      FoundAmongOlder(ram.index, ram.cursor, Slot(n, j));
    } else {
      FindsInOrder(n, past, h, ram, j);
    }
  }

  lemma NotTaken(n: nat, past: Past, k: nat)
    requires k >= n
    ensures !TakenForFull(n, past, k)
  {
  }

  /** The search finds every retained record by its own time. */
  ghost predicate FindsEveryRecord(n: nat, h: History, ram: Ram)
    requires n > 0 && ValidIndex(ram.index, ram.cursor)
  {
    forall j :: Live(n, h, j) ==> FileId(ram.index, ram.cursor, h[j].Time()) == Slot(n, j)
  }

  /** On the same states: all retained records are found exactly when the state is ordered or, in a ring taken for
      full, the newest record is found. In a full ring with any other cursor the oldest record is not. */
  lemma FindsExactlyInOrder(n: nat, past: Past, h: History, ram: Ram)
    requires 0 < n <= CAPACITY_LIMIT && RamRefines(n, past, h, ram) && h != [] && SpacedHistory(h)
    requires RemainsOlder(n, past, h)
    ensures ValidIndex(ram.index, ram.cursor)
    ensures FindsEveryRecord(n, h, ram) <==> InOrder(n, past, |h|) || (|h| < n && Findable(n, past, |h|, |h| - 1))
    ensures |h| >= n && Slot(n, |h|) != 1 ==> FileId(ram.index, ram.cursor, h[|h| - n].Time()) == 0
  {
    hide FileId, FullInAgeOrder, IndexRefines, StaysOnSide, SpacedHistory, TakenForFull, RemainsOlder;
    var k := |h|;
    IndexIsValid(n, past, h, ram.index);
    if InOrder(n, past, k) {
      forall j: int | Live(n, h, j) ensures FileId(ram.index, ram.cursor, h[j].Time()) == Slot(n, j) {
        FindsInOrder(n, past, h, ram, j);
      }
    } else if k < n {
      FindsExactlyTaken(n, past, h, ram);
    } else {
      FullRingInAgeOrder(n, past, h, ram.index);
      assert Slot(n, k - n) == Slot(n, k);
      assert Live(n, h, k - n);
      SlotTime(n, past, h, ram.index, Slot(n, k));
      LatestUnique(n, k, k - n);
      OldestNeverFound(ram.index, ram.cursor);
    }
  }

  lemma FindsExactlyTaken(n: nat, past: Past, h: History, ram: Ram)
    requires 0 < n <= CAPACITY_LIMIT && RamRefines(n, past, h, ram) && h != [] && SpacedHistory(h)
    requires RemainsOlder(n, past, h) && TakenForFull(n, past, |h|)
    ensures ValidIndex(ram.index, ram.cursor)
    ensures FindsEveryRecord(n, h, ram) <==> Findable(n, past, |h|, |h| - 1)
  {
    hide FileId, IndexRefines, StaysOnSide, SpacedHistory, RemainsOlder, Past.InRam;
    var k := |h|;
    FoundByOwnTimeExactly(n, past, h, ram, k - 1);
    assert Live(n, h, k - 1);
    if Findable(n, past, k, k - 1) {
      forall j: int | Live(n, h, j) ensures FileId(ram.index, ram.cursor, h[j].Time()) == Slot(n, j) {
        FoundByOwnTimeExactly(n, past, h, ram, j);
        NewestStays(Bounds(1, n), k + 1, Slot(n, j));
      }
    }
  }

  // ---------- What an answer is ----------

  /** Only slots that have been written are searched, unless the ring is taken for full. */
  lemma SearchedAreWritten(n: nat, past: Past, h: History, index: seq<uint32>)
    requires 0 < n <= CAPACITY_LIMIT && IndexRefines(n, past, h, index) && h != []
    ensures ValidIndex(index, Slot(n, |h|)) && |index| == n + 1
    ensures LastSearched(index, Slot(n, |h|)) <= n
    ensures LastSearched(index, Slot(n, |h|)) <= |h| || TakenForFull(n, past, |h|)
  {
    hide Past.InRam;
  }

  /** Whatever the cursor and the past: for every query within reach of the oldest record, the slot answered holds a
      retained record within the threshold, and no retained record is closer; or the ring is taken for full, and
      the slot is one the history has not reached, with an earlier ring's time. */
  lemma AnswersAreClosest(n: nat, past: Past, h: History, ram: Ram, t: uint32)
    requires 0 < n <= CAPACITY_LIMIT && RamRefines(n, past, h, ram) && h != [] && SpacedHistory(h)
    requires InReach(t, h[Oldest(n, |h|)].Time())
    ensures ValidIndex(ram.index, ram.cursor)
    ensures var r := FileId(ram.index, ram.cursor, t);
            r != 0 ==>
              && 1 <= r <= n
              && (r <= |h| ==>
                    var j := Latest(n, |h|, r);
                    && Live(n, h, j) && Distance(h[j].Time(), t) <= THRESHOLD
                    && forall i :: Live(n, h, i) ==> Distance(h[j].Time(), t) <= Distance(h[i].Time(), t))
              && (r > |h| ==>
                    && TakenForFull(n, past, |h|)
                    && (Distance(past.InRam(r), t) <= THRESHOLD || past.InRam(r) + TWO_TO_32 - t <= THRESHOLD))
  {
    hide FileId, LastSearched, Slot, Latest, Past.InRam;
    SearchedAreWritten(n, past, h, ram.index);
    AnswerOnCircle(ram.index, ram.cursor, t);
    var r := FileId(ram.index, ram.cursor, t);
    if 1 <= r <= |h| {
      SlotTime(n, past, h, ram.index, r);
      NearIsClosest(n, h, Latest(n, |h|, r), t);
    }
  }

  /** With 30 s between records, a record within the threshold on the 32-bit circle is a closest one. */
  lemma NearIsClosest(n: nat, h: History, j: nat, t: uint32)
    requires n > 0 && SpacedHistory(h) && Live(n, h, j) && InReach(t, h[Oldest(n, |h|)].Time())
    requires Distance(h[j].Time(), t) <= THRESHOLD || h[j].Time() + TWO_TO_32 - t <= THRESHOLD
    ensures Distance(h[j].Time(), t) <= THRESHOLD
    ensures forall i :: Live(n, h, i) ==> Distance(h[j].Time(), t) <= Distance(h[i].Time(), t)
  {
    assert Oldest(n, |h|) < j ==> Apart(h[Oldest(n, |h|)].Time(), h[j].Time());
    forall i: int | Live(n, h, i) ensures Distance(h[j].Time(), t) <= Distance(h[i].Time(), t) {
      assert i < j ==> Apart(h[i].Time(), h[j].Time());
      assert j < i ==> Apart(h[j].Time(), h[i].Time());
    }
  }

  /** A ring of three with one record, at time 1000, and 130 and 160 back in slots 2 and 3 of the index: the record is
      not found by its own time, and a query for 160 is answered with slot 3, where no record is. */
  lemma RemainsCounterexample(past: Past, h: History, ram: Ram)
    requires RamRefines(3, past, h, ram) && |h| == 1 && h[0].Time() == 1000
    requires past.InRam(2) == 130 && past.InRam(3) == 160
    ensures ValidIndex(ram.index, ram.cursor)
    ensures FileId(ram.index, ram.cursor, 1000) == 0 && FileId(ram.index, ram.cursor, 160) == 3
  {
    hide Past.InRam;
    var a := ram.index;
    assert Live(3, h, 0) && a[1] == 1000 && a[2] == 130 && a[3] == 160;
    forall t: uint32 | t == 160 || t == 1000 ensures Probe(a, Bounds(1, 3), 0, t) == 3 {
      ProbeStep(a, Bounds(1, 3), 0, t);
      ProbeEnd(a, Bounds(3, 3), 0, t);
    }
    CursorIrrelevant(a, ram.cursor, 160);
    CursorIrrelevant(a, ram.cursor, 1000);
  }

  /** What is left of an earlier ring, if it is searched, is one interval older than the history and within the
      reach of t. */
  ghost predicate RemainsOutdated(n: nat, past: Past, h: History, t: uint32)
    requires h != []
  {
    TakenForFull(n, past, |h|) ==>
      forall i :: |h| < i <= n ==> Apart(past.InRam(i), h[0].Time()) && InReach(t, past.InRam(i))
  }

  /** A record's own time finds its slot or nothing. */
  lemma OwnSlotOrNone(n: nat, past: Past, h: History, ram: Ram, j: nat)
    requires 0 < n <= CAPACITY_LIMIT && RamRefines(n, past, h, ram) && SpacedHistory(h) && Live(n, h, j)
    requires InReach(h[j].Time(), h[Oldest(n, |h|)].Time()) && RemainsOutdated(n, past, h, h[j].Time())
    ensures ValidIndex(ram.index, ram.cursor)
    ensures FileId(ram.index, ram.cursor, h[j].Time()) == if Findable(n, past, |h|, j) then Slot(n, j) else 0
  {
    hide FileId, IndexRefines, Findable, Past.InRam;
    var t := h[j].Time();
    FoundByOwnTimeExactly(n, past, h, ram, j);
    AnswersAreClosest(n, past, h, ram, t);
    var r := FileId(ram.index, ram.cursor, t);
    assert 0 < j ==> Apart(h[0].Time(), h[j].Time());
    if 1 <= r <= |h| {
      OnlyOwnNear(h, Latest(n, |h|, r), j);
    }
  }

  // ---------- Requests by time ----------

  /** The record number before which a request by the time of record j pages. */
  function AskedByTime(n: nat, past: Past, k: nat, j: nat): (top: nat)
    requires n > 0
  {
    if j + n != k && Findable(n, past, k, j) then j else k
  }

  /** A request by a time that the search misses sends the most recent page, without any sign of the miss. */
  lemma MissedTimeSendsNewest(l: Layout, cv: Converters, n: nat, past: Past, h: History, torn: bool, s: State,
                              beforeId: uint16, t: uint32, limit: uint16)
    requires 0 < n <= CAPACITY_LIMIT && Refines(l, n, past, h, torn, s) && s.ram.loaded && s.Valid() && cv.Valid()
    requires t != 0 && FileId(s.ram.index, s.ram.cursor, t) == 0
    requires 0 < limit <= |h| && limit + (if torn then 1 else 0) <= n
    ensures Fetch(l, cv, s, limit, StartOf(s.ram, beforeId, t), limit) == Reply(Success, RecordsFor(cv, h, |h|, limit))
  {
    hide Refines, Fetch, FileId;
    LoadedFacts(l, n, past, h, torn, s);
    PageSends(l, cv, n, past, h, torn, s, limit, |h|);
  }

  /** A request by any time that the search answers with the slot of record j, its own or one near it: the page sends
      the `limit` records written just before record j. */
  lemma AnsweredTimeSends(l: Layout, cv: Converters, n: nat, past: Past, h: History, torn: bool, s: State,
                          beforeId: uint16, t: uint32, j: nat, limit: uint16)
    requires 0 < n <= CAPACITY_LIMIT && Refines(l, n, past, h, torn, s) && s.ram.loaded && s.Valid() && cv.Valid()
    requires t != 0 && Live(n, h, j)
    requires 0 < limit <= j && |h| + (if torn then 1 else 0) <= j - limit + n
    ensures FileId(s.ram.index, s.ram.cursor, t) == Slot(n, j) ==>
              Fetch(l, cv, s, limit, StartOf(s.ram, beforeId, t), limit)
              == Reply(Success, RecordsFor(cv, h, j, limit))
  {
    hide Refines, Fetch, FileId, RecordsFor;
    LoadedFacts(l, n, past, h, torn, s);
    PageSends(l, cv, n, past, h, torn, s, limit, j);
  }

  /** A request by any time within 15 s of a retained record, in an ordered state: the page sends the records written
      just before the closest one. */
  lemma PageBeforeNearTime(l: Layout, cv: Converters, n: nat, past: Past, h: History, torn: bool, s: State,
                           beforeId: uint16, t: uint32, limit: uint16, i: nat) returns (j: nat)
    requires 0 < n <= CAPACITY_LIMIT && Refines(l, n, past, h, torn, s) && s.ram.loaded && s.Valid() && cv.Valid()
    requires SpacedHistory(h) && h != [] && InOrder(n, past, |h|) && InReach(t, h[|h| - 1].Time()) && t != 0
    requires Live(n, h, i) && Distance(h[i].Time(), t) <= 15 && !PastNewest(n, h, t)
    ensures Live(n, h, j) && ClosestRecord(n, h, j, t) && Distance(h[j].Time(), t) <= 15
    ensures 0 < limit <= j && |h| + (if torn then 1 else 0) <= j - limit + n ==>
              Fetch(l, cv, s, limit, StartOf(s.ram, beforeId, t), limit)
              == Reply(Success, RecordsFor(cv, h, j, limit))
  {
    hide Refines, Fetch, FileId, RecordsFor, SpacedHistory, InOrder, PastNewest, ClosestRecord, Distance, StartOf;
    LoadedFacts(l, n, past, h, torn, s);
    LoadedRam(l, n, past, h, torn, s);
    SearchOverHistory(n, past, h, s.ram, t);
    var r := FileId(s.ram.index, s.ram.cursor, t);
    j :| Live(n, h, j) && Slot(n, j) == r && Distance(h[j].Time(), t) <= THRESHOLD && ClosestRecord(n, h, j, t);
    if 0 < limit <= j && |h| + (if torn then 1 else 0) <= j - limit + n {
      AnsweredTimeSends(l, cv, n, past, h, torn, s, beforeId, t, j, limit);
    }
  }

  /** In a full ring with any cursor: which queries near a record are answered with it. */
  lemma NearTimeOnFullRing(n: nat, past: Past, h: History, ram: Ram, j: nat, t: uint32)
    requires 1 < n <= CAPACITY_LIMIT && RamRefines(n, past, h, ram) && SpacedHistory(h) && |h| >= n && Live(n, h, j)
    requires -15 < t - h[j].Time() <= 15
    ensures ValidIndex(ram.index, ram.cursor)
    ensures var s := Slot(n, j);
            FileId(ram.index, ram.cursor, t) == s
            <==> StaysOnSide(Bounds(1, n), Slot(n, |h|), s, if t <= h[j].Time() then s else s + 1)
  {
    hide FileId, IndexRefines, FullInAgeOrder, StaysOnSide, Slot, SpacedHistory;
    IndexIsValid(n, past, h, ram.index);
    LatestUnique(n, |h|, j);
    SlotTime(n, past, h, ram.index, Slot(n, j));
    FullRingInAgeOrder(n, past, h, ram.index);
    FoundNear(ram.index, ram.cursor, Slot(n, j), t);
  }

  /** In a full ring no record on the other side of the cursor from the middle slot is answered, to any query
      near it. */
  lemma OtherHalfNeverAnswered(n: nat, past: Past, h: History, ram: Ram, j: nat, t: uint32)
    requires 1 < n <= CAPACITY_LIMIT && RamRefines(n, past, h, ram) && SpacedHistory(h) && |h| >= n && Live(n, h, j)
    requires -15 < t - h[j].Time() <= 15
    requires var middle, cursor := (n + 1) / 2, |h| % n + 1; (Slot(n, j) < cursor) != (middle < cursor)
    ensures ValidIndex(ram.index, ram.cursor)
    ensures FileId(ram.index, ram.cursor, t) != Slot(n, j)
  {
    hide FileId, IndexRefines, FullInAgeOrder, SpacedHistory;
    IndexIsValid(n, past, h, ram.index);
    LatestUnique(n, |h|, j);
    SlotTime(n, past, h, ram.index, Slot(n, j));
    FullRingInAgeOrder(n, past, h, ram.index);
    SlotIsMod(n, |h|);
    OtherHalfMissed(ram.index, ram.cursor, Slot(n, j), t);
  }

  /** A request by a time that the search answers with a slot the history has not reached, other than the cursor's and
      a torn one's successor: the first packet is no record at all, but zeroes. */
  lemma RemainsAnswerSendsZeroes(l: Layout, cv: Converters, n: nat, past: Past, h: History, torn: bool, s: State,
                                 beforeId: uint16, t: uint32, limit: uint16)
    requires 0 < n <= CAPACITY_LIMIT && Refines(l, n, past, h, torn, s) && s.ram.loaded && s.Valid() && cv.Valid()
    requires t != 0 && h != [] && limit > 0
    ensures Extent(n, h, torn) + 1 < FileId(s.ram.index, s.ram.cursor, t) <= n ==>
              var count := Requested(s.ram, limit);
              var reply := Fetch(l, cv, s, limit, StartOf(s.ram, beforeId, t), count);
              && reply.result == Success && |reply.sent| == count
              && reply.sent[0] == Prepared(cv, ZeroRecord(l), count > 1)
  {
    hide Refines, FileId, Pages, Prepared, ZeroRecord, Extent, Offset;
    LoadedFacts(l, n, past, h, torn, s);
    RetainedFacts(l, n, past, h, torn, s);
    var r := FileId(s.ram.index, s.ram.cursor, t);
    if Extent(n, h, torn) + 1 < r <= n {
      UnreachedPastEnd(l, n, h, torn, s.disk.records, r - 1);
      PastEndSends(l, cv, n, s.disk.records.value, Reading(r, Requested(s.ram, limit), ZeroRecord(l)), 0);
    }
  }

  /** A request by the time of any retained record, with any cursor and any past: the page sends the `limit` records
      written just before it, newest first, if the search can find it; otherwise, and for the oldest record of a full
      ring even if it is found, the most recent page. */
  lemma PageBeforeTime(l: Layout, cv: Converters, n: nat, past: Past, h: History, torn: bool, s: State,
                       beforeId: uint16, j: nat, limit: uint16)
    requires 0 < n <= CAPACITY_LIMIT && Refines(l, n, past, h, torn, s) && s.ram.loaded && s.Valid() && cv.Valid()
    requires SpacedHistory(h) && Live(n, h, j)
    requires InReach(h[j].Time(), h[Oldest(n, |h|)].Time()) && RemainsOutdated(n, past, h, h[j].Time())
    requires var top := AskedByTime(n, past, |h|, j);
             0 < limit <= top <= |h| && |h| + (if torn then 1 else 0) <= top - limit + n
    ensures Fetch(l, cv, s, limit, StartOf(s.ram, beforeId, h[j].Time()), limit)
            == Reply(Success, RecordsFor(cv, h, AskedByTime(n, past, |h|, j), limit))
  {
    hide Fetch, FileId, RecordsFor, Findable, RamRefines, Retained, ConfigRefines, RemainsOutdated, Past.InRam;
    LoadedFacts(l, n, past, h, torn, s);
    OwnSlotOrNone(n, past, h, s.ram, j);
    if j + n == |h| {
      OldestAtCursor(n, |h|, j);
    }
    PageSends(l, cv, n, past, h, torn, s, limit, AskedByTime(n, past, |h|, j));
  }

  lemma OldestAtCursor(n: nat, k: nat, j: nat)
    requires n > 0 && j + n == k
    ensures Slot(n, j) == Slot(n, k)
  {
  }

  // ---------- After a wipe ----------

  /** The times a wipe leaves in slots 2..n of the file are those of the wiped history and of what was left before. */
  lemma WipedTimesOlder(l: Layout, n: nat, past: Past, h: History, torn: bool, s: State, bound: int, i: nat)
    requires 0 < n <= CAPACITY_LIMIT && Refines(l, n, past, h, torn, s) && 2 <= i <= n && bound > 0
    requires forall j :: 0 <= j < |h| ==> h[j].Time() < bound
    requires forall m :: 1 <= m <= n ==> past.OnDisk(m) < bound
    ensures OldWord(s.disk.config, i) < bound
  {
    hide DiskWord, HeaderOf, ValidConfig, Retained, RamRefines, Past.OnDisk;
    if s.disk.config.Some? && i <= |h| {
      assert Live(n, h, Latest(n, |h|, i));
    }
  }

  /** On every run after a wipe, while the clock goes on: a retained record is found by its own time exactly when its
      bisection compares only slots on its side of the cursor, or the new ring is not full and either power has not
      been lost since the wipe or the old word at the cursor was zero. */
  lemma FoundAfterWipe(l: Layout, n: nat, past: Past, h0: History, torn: bool, s: State, capacity: uint16,
                       junk: Junk, events: seq<Event>, j: nat)
    requires 0 < n <= CAPACITY_LIMIT && Refines(l, n, past, h0, torn, s) && s.ram.loaded && s.Valid()
    requires Allowed(capacity) && capacity <= s.ram.max && SteadyRun(l, events) && WritesFirst(events)
    requires SetMax(s, capacity, junk).Valid() && Run(l, SetMax(s, capacity, junk), events).ram.loaded
    requires var h := HistoryAfter(capacity, [], events);
             && SpacedHistory(h) && Live(capacity, h, j)
             && (forall i :: 0 <= i < |h0| ==> h0[i].Time() < h[0].Time())
             && (forall i :: 1 <= i <= n ==> past.OnDisk(i) < h[0].Time())
    ensures var t, k := Run(l, SetMax(s, capacity, junk), events), |HistoryAfter(capacity, [], events)|;
            && ValidIndex(t.ram.index, t.ram.cursor)
            && (FileId(t.ram.index, t.ram.cursor, HistoryAfter(capacity, [], events)[j].Time()) == Slot(capacity, j)
                <==> || (k < capacity && (!AnyLoss(events) || OldWord(s.disk.config, k + 1) == 0))
                     || StaysOnSide(Bounds(1, capacity), Slot(capacity, k), Slot(capacity, j), Slot(capacity, j)))
  {
    hide FileId, Refines, RamRefines, SetMax, Remains, Run, SteadyRun, WritesFirst, HistoryAfter, TornAfter, PastAfter,
         OldWord, AnyLoss, Findable, StaysOnSide, RemainsOlder, Past.InRam, Past.OnDisk, Slot;
    var w, h := SetMax(s, capacity, junk), HistoryAfter(capacity, [], events);
    var t, past' := Run(l, w, events), PastAfter(Remains(s.disk.config), events);
    LoadedFacts(l, n, past, h0, torn, s);
    RunAfterWipe(l, s, capacity, junk, events);
    LoadedRam(l, capacity, past', h, TornAfter(false, events), t);
    RemainsInRamAfter(s.disk.config, events);
    forall i | |h| < i <= capacity ensures past'.InRam(i) < h[0].Time() {
      WipedTimesOlder(l, n, past, h0, torn, s, h[0].Time(), i);
    }
    AllOlder(capacity, past', h);
    FoundByOwnTimeExactly(capacity, past', h, t.ram, j);
    FindableAfterWipe(s.disk.config, events, capacity, |h|, j);
  }

  lemma LoadedRam(l: Layout, n: nat, past: Past, h: History, torn: bool, s: State)
    requires n > 0 && Refines(l, n, past, h, torn, s) && s.ram.loaded
    ensures RamRefines(n, past, h, s.ram)
  {
  }

  /** What of the remains a run has brought into RAM. */
  lemma RemainsInRamAfter(c: Option<File>, events: seq<Event>)
    ensures forall i: nat :: PastAfter(Remains(c), events).InRam(i) == if AnyLoss(events) then OldWord(c, i) else 0
  {
    hide DiskWord;
    match c {
      case None => NothingBefore(events);
      case Some(f) => PastAfterRemains(f, false, events);
    }
  }

  lemma AllOlder(n: nat, past: Past, h: History)
    requires h != [] && forall i :: |h| < i <= n ==> past.InRam(i) < h[0].Time()
    ensures RemainsOlder(n, past, h)
  {
  }

  lemma FindableAfterWipe(c: Option<File>, events: seq<Event>, n: nat, k: nat, j: nat)
    requires n > 0
    ensures Findable(n, PastAfter(Remains(c), events), k, j)
            <==> || (k < n && (!AnyLoss(events) || OldWord(c, k + 1) == 0))
                 || StaysOnSide(Bounds(1, n), Slot(n, k), Slot(n, j), Slot(n, j))
  {
    hide OldWord, StaysOnSide, Remains, PastAfter;
    RemainsInRamAfter(c, events);
  }
}
