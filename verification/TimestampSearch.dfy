/** The timestamp search over the index, as written in the source, and what it finds.

    An index is the sequence of words of the dynamic array: element 0 is unused, slot i is element i,
    and [] stands for the null pointer. */
module TimestampSearch {
  import opened Machine
  import opened RingMath

  const THRESHOLD := 15

  /** The largest difference that does not wrap into the threshold. */
  const SAFE_TIME := 0x1_0000_0000 - 16

  ghost predicate ValidIndex(a: seq<uint32>, cursor: nat) {
    1 <= cursor < |a| <= 20161
  }

  // ---------- The algorithm ----------

  /** The ends of the interval still being searched. */
  datatype Bounds = Bounds(left: nat, right: nat)
  {
    predicate Within(a: seq<uint32>, offset: nat) {
      offset < left <= right < offset + |a|
    }

    function Shift(offset: nat): Bounds {
      Bounds(left + offset, right + offset)
    }

    function Middle(): nat {
      (left + right) / 2
    }
  }

  /** One turn of the bisection loop. */
  function Halve(a: seq<uint32>, b: Bounds, offset: nat, t: uint32): (c: Bounds)
    requires b.Within(a, offset) && b.left < b.right
    ensures b.left <= c.left <= c.right <= b.right && c.right - c.left < b.right - b.left
  {
    if a[b.Middle() - offset] < t then b.(left := b.Middle() + 1) else b.(right := b.Middle())
  }

  /** The bisection loop: where `left` ends up. */
  function Probe(a: seq<uint32>, b: Bounds, offset: nat, t: uint32): (position: nat)
    requires b.Within(a, offset)
    ensures b.left <= position <= b.right
    decreases b.right - b.left
  {
    if b.left < b.right then Probe(a, Halve(a, b, offset, t), offset, t) else b.left
  }

  /** The slots the loop looks at, in order. */
  function Probed(a: seq<uint32>, b: Bounds, offset: nat, t: uint32): seq<int>
    requires b.Within(a, offset)
    decreases b.right - b.left
  {
    if b.left < b.right then [b.Middle() - offset] + Probed(a, Halve(a, b, offset, t), offset, t) else []
  }

  /** The decision taken at the position the loop ends on. */
  function Decide(a: seq<uint32>, position: nat, t: uint32): (slot: nat)
    requires 1 <= position < |a|
  {
    if position > 1 then
      if Minus32(t, a[position - 1]) <= THRESHOLD then position - 1
      else if position != |a| - 1 then
        if Minus32(a[position], t) <= THRESHOLD then position else 0
      else if t > a[position] && Minus32(t, a[position]) <= THRESHOLD then position
      else if Minus32(a[position], t) <= THRESHOLD then position
      else 0
    else if Minus32(a[position], t) <= THRESHOLD then position
    else 0
  }

  /** get_file_id_from_timestamp. */
  function FileId(a: seq<uint32>, cursor: nat, t: uint32): (slot: nat)
    requires a == [] || ValidIndex(a, cursor)
  {
    if a == [] then 0
    else if a[cursor] == 0 then
      if cursor == 1 then 0 else Decide(a, Probe(a, Bounds(1, cursor - 1), 0, t), t)
    else
      var offset := cursor - 1;
      Decide(a, Probe(a, Bounds(cursor, cursor + |a| - 2), offset, t) - offset, t)
  }

  /** The last slot that takes part in a search: all slots once the ring has filled. */
  function LastSearched(a: seq<uint32>, cursor: nat): nat
    requires ValidIndex(a, cursor)
  {
    if a[cursor] == 0 then cursor - 1 else |a| - 1
  }

  lemma ProbeStep(a: seq<uint32>, b: Bounds, offset: nat, t: uint32)
    requires b.Within(a, offset) && b.left < b.right
    ensures Probe(a, b, offset, t) == Probe(a, Halve(a, b, offset, t), offset, t)
  {
  }

  lemma ProbeEnd(a: seq<uint32>, b: Bounds, offset: nat, t: uint32)
    requires b.Within(a, offset) && b.left == b.right
    ensures Probe(a, b, offset, t) == b.left
  {
  }

  // ---------- The loop and the decision, spelled out ----------

  /** Every turn compares the slot half-way, goes on above it if its time is below the query and up to it otherwise,
      and at least halves the interval. */
  lemma LoopHalves(a: seq<uint32>, left: nat, right: nat, offset: nat, t: uint32)
    requires offset < left < right < offset + |a|
    ensures var m := (left + right) / 2;
            var next := if a[m - offset] < t then Bounds(m + 1, right) else Bounds(left, m);
            && next.Within(a, offset)
            && 2 * (next.right - next.left) <= right - left
            && Probe(a, Bounds(left, right), offset, t) == Probe(a, next, offset, t)
            && Probed(a, Bounds(left, right), offset, t) == [m - offset] + Probed(a, next, offset, t)
  {
    hide Probe, Probed;
    ProbeStep(a, Bounds(left, right), offset, t);
    ProbedUnfolds(a, Bounds(left, right), offset, t);
  }

  lemma Minus32IsMod(a: uint32, b: uint32)
    ensures Minus32(a, b) == (a - b) % 0x1_0000_0000
  {
  }

  /** What is answered where the loop ends: the slot below if its time is at most 15 s back on the 32-bit circle, else
      the slot itself if its time is at most 15 s ahead, or, on the last slot of several, at most 15 s back. */
  lemma DecideExactly(a: seq<uint32>, p: nat, t: uint32)
    requires 1 <= p < |a|
    ensures var below := p > 1 && (t - a[p - 1]) % 0x1_0000_0000 <= 15;
            var ahead := (a[p] - t) % 0x1_0000_0000 <= 15;
            var back := 1 < p == |a| - 1 && 0 < t - a[p] <= 15;
            Decide(a, p, t) == if below then p - 1 else if ahead || back then p else 0
  {
    if p > 1 {
      Minus32IsMod(t, a[p - 1]);
    }
    Minus32IsMod(a[p], t);
  }

  // ---------- What the loop finds in any array ----------

  /** Whatever the array: the element before the final position was probed below the query,
      and the final position, if the right end moved to it, was probed at or above. */
  lemma {:induction false} ProbeBrackets(a: seq<uint32>, b: Bounds, offset: nat, t: uint32)
    requires b.Within(a, offset)
    ensures var p := Probe(a, b, offset, t);
            && (b.left < p ==> a[p - 1 - offset] < t)
            && (p < b.right ==> t <= a[p - offset])
    decreases b.right - b.left
  {
    if b.left < b.right {
      ProbeBrackets(a, Halve(a, b, offset, t), offset, t);
    }
  }

  lemma HalveShift(a: seq<uint32>, b: Bounds, offset: nat, t: uint32)
    requires b.Within(a, 0) && b.left < b.right
    ensures b.Shift(offset).Middle() == b.Middle() + offset
    ensures Halve(a, b.Shift(offset), offset, t) == Halve(a, b, 0, t).Shift(offset)
  {
    assert b.Shift(offset).Middle() == b.Middle() + offset;
  }

  /** Adding an offset to both ends changes neither the slot the loop ends on
      nor (OffsetKeepsProbes) the slots probed on the way. */
  lemma {:induction false} OffsetElimination(a: seq<uint32>, b: Bounds, offset: nat, t: uint32)
    requires b.Within(a, 0)
    ensures Probe(a, b.Shift(offset), offset, t) == Probe(a, b, 0, t) + offset
    decreases b.right - b.left
  {
    if b.left < b.right {
      HalveShift(a, b, offset, t);
      OffsetElimination(a, Halve(a, b, 0, t), offset, t);
    }
  }

  lemma ProbedUnfolds(a: seq<uint32>, b: Bounds, offset: nat, t: uint32)
    requires b.Within(a, offset) && b.left < b.right
    ensures Probed(a, b, offset, t) == [b.Middle() - offset] + Probed(a, Halve(a, b, offset, t), offset, t)
  {
  }

  lemma {:induction false} OffsetKeepsProbes(a: seq<uint32>, b: Bounds, offset: nat, t: uint32)
    requires b.Within(a, 0)
    ensures Probed(a, b.Shift(offset), offset, t) == Probed(a, b, 0, t)
    decreases b.right - b.left
  {
    if b.left < b.right {
      HalveShift(a, b, offset, t);
      var c := Halve(a, b, 0, t);
      OffsetKeepsProbes(a, c, offset, t);
      ProbedUnfolds(a, b, 0, t);
      ProbedUnfolds(a, b.Shift(offset), offset, t);
    }
  }

  /** On a full ring the search is a plain lower bound over slots 1..N: the cursor plays no part. */
  lemma CursorIrrelevant(a: seq<uint32>, cursor: nat, t: uint32)
    requires ValidIndex(a, cursor) && a[cursor] != 0
    ensures FileId(a, cursor, t) == Decide(a, Probe(a, Bounds(1, |a| - 1), 0, t), t)
  {
    hide Probe, Decide;
    OffsetElimination(a, Bounds(1, |a| - 1), cursor - 1, t);
  }

  /** The search reduced to the plain loop over slots 1..LastSearched. */
  lemma PlainForm(a: seq<uint32>, cursor: nat, t: uint32)
    requires ValidIndex(a, cursor)
    ensures LastSearched(a, cursor) == 0 ==> FileId(a, cursor, t) == 0
    ensures LastSearched(a, cursor) > 0 ==>
      FileId(a, cursor, t) == Decide(a, Probe(a, Bounds(1, LastSearched(a, cursor)), 0, t), t)
  {
    if a[cursor] != 0 {
      CursorIrrelevant(a, cursor, t);
    }
  }

  /** Whatever the array, an answer is a searched slot, and its distance on the 32-bit circle is
      within the threshold: either its true distance is, or the query sits at the top of the range
      and the slot's time at the bottom. */
  lemma AnswerOnCircle(a: seq<uint32>, cursor: nat, t: uint32)
    requires ValidIndex(a, cursor)
    ensures var r := FileId(a, cursor, t);
            r != 0 ==>
              && 1 <= r <= LastSearched(a, cursor)
              && (Distance(a[r], t) <= THRESHOLD || a[r] + TWO_TO_32 - t <= THRESHOLD)
  {
    PlainForm(a, cursor, t);
    if LastSearched(a, cursor) > 0 {
      ProbeBrackets(a, Bounds(1, LastSearched(a, cursor)), 0, t);
    }
  }

  ghost predicate SoundAnswer(a: seq<uint32>, cursor: nat, t: uint32)
    requires ValidIndex(a, cursor)
  {
    var r := FileId(a, cursor, t);
    r != 0 ==> 1 <= r <= LastSearched(a, cursor) && Distance(a[r], t) <= THRESHOLD
  }

  /** Search soundness: for any index at all, sorted or not, every answer is truly within the
      threshold, exactly for the queries up to SAFE_TIME. */
  lemma SoundExactlyUpToSafeTime(t: uint32)
    ensures t <= SAFE_TIME <==>
            forall a: seq<uint32>, cursor: nat | ValidIndex(a, cursor) :: SoundAnswer(a, cursor, t)
  {
    if t <= SAFE_TIME {
      forall a: seq<uint32>, cursor: nat | ValidIndex(a, cursor) ensures SoundAnswer(a, cursor, t) {
        AnswerOnCircle(a, cursor, t);
      }
    } else {
      var a: seq<uint32> := [0, 0, 0];
      assert ValidIndex(a, 2);
      assert FileId(a, 2, t) == 1;
      assert !SoundAnswer(a, 2, t);
    }
  }

  // ---------- What the search finds in an ascending index ----------

  /** Time y is at least one housekeeping interval after time x. */
  predicate Apart(x: int, y: int) {
    x + 30 <= y
  }

  /** Times ascend over slots lo..hi, at least 30 seconds apart. */
  ghost predicate Spaced(a: seq<uint32>, lo: nat, hi: nat)
    requires hi < |a|
  {
    forall i, j :: lo <= i < j <= hi ==> Apart(a[i], a[j])
  }

  /** Slot r is a closest one to t among slots 1..hi, the lower slot on a tie. */
  ghost predicate Closest(a: seq<uint32>, hi: nat, r: nat, t: uint32)
    requires hi < |a|
  {
    && 1 <= r <= hi
    && forall i :: 1 <= i <= hi ==>
         Distance(a[r], t) < Distance(a[i], t) || (Distance(a[r], t) == Distance(a[i], t) && r <= i)
  }

  /** The query lies after the newest slot in a range whose last slot the source never probes. */
  predicate NewerThanProbed(a: seq<uint32>, cursor: nat, t: uint32)
    requires ValidIndex(a, cursor) && LastSearched(a, cursor) > 0
  {
    t > a[LastSearched(a, cursor)] && (a[cursor] == 0 || |a| == 2)
  }

  /** The position p brackets the query: below it before p, at or above it from p on. */
  ghost predicate Brackets(a: seq<uint32>, hi: nat, p: nat, t: uint32)
    requires hi < |a|
  {
    1 <= p <= hi && (p > 1 ==> a[p - 1] < t) && (p < hi ==> t <= a[p])
  }

  /** The query is not so far past the newest slot that a wrapped difference falls within the threshold. */
  predicate InReach(t: int, newest: int) {
    t - newest <= SAFE_TIME
  }

  /** The decision without wrap-around: the lower neighbour first, then the position itself, which
      is also accepted below the query only on the very last slot of the array. */
  lemma DecideValue(a: seq<uint32>, hi: nat, p: nat, t: uint32)
    requires hi < |a| && Brackets(a, hi, p, t) && InReach(t, a[p])
    ensures Decide(a, p, t) ==
            if p > 1 && Distance(a[p - 1], t) <= THRESHOLD then p - 1
            else if Distance(a[p], t) <= THRESHOLD && (t <= a[p] || (1 < p == |a| - 1)) then p
            else 0
  {
  }

  /** Only the two slots around the query can be within an interval of it. */
  lemma OnlyNeighboursNear(a: seq<uint32>, hi: nat, p: nat, t: uint32, i: nat)
    requires hi < |a| && Brackets(a, hi, p, t) && Spaced(a, 1, hi) && 1 <= i <= hi
    ensures i < p - 1 ==> Distance(a[i], t) > Max(30, Distance(a[p - 1], t))
    ensures p < i ==> Distance(a[i], t) >= 30 && Distance(a[i], t) > Distance(a[p], t)
  {
    if i < p - 1 {
      assert Apart(a[i], a[p - 1]);
    } else if p < i {
      assert Apart(a[p], a[i]);
    }
  }

  /** Every search with a slot to look at is a decision at a bracketing position. */
  lemma BracketedForm(a: seq<uint32>, cursor: nat, t: uint32) returns (p: nat)
    requires ValidIndex(a, cursor) && LastSearched(a, cursor) > 0
    ensures Brackets(a, LastSearched(a, cursor), p, t)
    ensures FileId(a, cursor, t) == Decide(a, p, t)
  {
    PlainForm(a, cursor, t);
    ProbeBrackets(a, Bounds(1, LastSearched(a, cursor)), 0, t);
    p := Probe(a, Bounds(1, LastSearched(a, cursor)), 0, t);
  }

  /** The decision at a bracketing position of an ascending range. */
  lemma DecideExact(a: seq<uint32>, hi: nat, p: nat, t: uint32)
    requires hi < |a| && Brackets(a, hi, p, t) && Spaced(a, 1, hi) && InReach(t, a[hi])
    ensures var r := Decide(a, p, t);
            && (r != 0 ==> Closest(a, hi, r, t) && Distance(a[r], t) <= THRESHOLD)
            && (r == 0 <==>
                  ((t > a[hi] && (hi != |a| - 1 || hi == 1))
                   || forall i :: 1 <= i <= hi ==> Distance(a[i], t) > THRESHOLD))
  {
    DecideValue(a, hi, p, t);
    forall i | 1 <= i <= hi
      ensures i < p - 1 ==> Distance(a[i], t) > Max(30, Distance(a[p - 1], t))
      ensures p < i ==> Distance(a[i], t) >= 30 && Distance(a[i], t) > Distance(a[p], t)
    {
      OnlyNeighboursNear(a, hi, p, t, i);
    }
    assert 1 < p ==> Apart(a[p - 1], a[p]);
    assert p < hi ==> Apart(a[p], a[hi]);
  }

  /** What an answer should be: a closest slot within the threshold; and none only if there is no slot within
      the threshold, or the query is newer than the last slot of a ring that is not full or has one slot. */
  ghost predicate ExactAnswer(a: seq<uint32>, cursor: nat, t: uint32)
    requires ValidIndex(a, cursor) && LastSearched(a, cursor) > 0
  {
    var r, hi := FileId(a, cursor, t), LastSearched(a, cursor);
    && (r != 0 ==> Closest(a, hi, r, t) && Distance(a[r], t) <= THRESHOLD)
    && (r == 0 <==>
          (NewerThanProbed(a, cursor, t)
           || forall i :: 1 <= i <= hi ==> Distance(a[i], t) > THRESHOLD))
  }

  /** Far past the newest slot (which then is the only one, with a time below 15), the wrapped difference makes
      the search answer that slot. */
  lemma WrapAnswersNewest(a: seq<uint32>, cursor: nat, t: uint32)
    requires ValidIndex(a, cursor) && LastSearched(a, cursor) > 0
    requires Spaced(a, 1, LastSearched(a, cursor)) && !InReach(t, a[LastSearched(a, cursor)])
    ensures FileId(a, cursor, t) == LastSearched(a, cursor)
  {
    hide FileId;
    SpacedFloor(a, LastSearched(a, cursor));
    var p := BracketedForm(a, cursor, t);
  }

  lemma SpacedFloor(a: seq<uint32>, hi: nat)
    requires hi < |a| && Spaced(a, 1, hi)
    ensures hi > 1 ==> a[hi] >= 30
  {
    assert hi > 1 ==> Apart(a[hi - 1], a[hi]);
  }

  /** Exactness on an ascending index, for every query the 32-bit arithmetic can serve, and for no other. */
  lemma SearchExact(a: seq<uint32>, cursor: nat, t: uint32)
    requires ValidIndex(a, cursor) && LastSearched(a, cursor) > 0
    requires Spaced(a, 1, LastSearched(a, cursor))
    ensures ExactAnswer(a, cursor, t) <==> InReach(t, a[LastSearched(a, cursor)])
  {
    hide FileId;
    if InReach(t, a[LastSearched(a, cursor)]) {
      var p := BracketedForm(a, cursor, t);
      DecideExact(a, LastSearched(a, cursor), p, t);
    } else {
      WrapAnswersNewest(a, cursor, t);
    }
  }

  /** On a full ascending ring the answer to a query is a closest slot whenever there is an answer. */
  ghost predicate AlwaysClosest(a: seq<uint32>, cursor: nat)
    requires ValidIndex(a, cursor)
  {
    forall t: uint32 | InReach(t, a[|a| - 1]) && FileId(a, cursor, t) != 0 ::
      Closest(a, LastSearched(a, cursor), FileId(a, cursor, t), t)
  }

  /** The assumed 30-second interval is exactly what the threshold needs: on a full ring in ascending
      order, answers are closest slots for all queries if and only if all gaps are at least 30. */
  lemma ThirtySecondsExactlyNeeded(a: seq<uint32>, cursor: nat)
    requires ValidIndex(a, cursor) && a[cursor] != 0 && |a| > 2
    requires forall i, j :: 1 <= i < j < |a| ==> a[i] < a[j]
    ensures AlwaysClosest(a, cursor) <==> Spaced(a, 1, |a| - 1)
  {
    if Spaced(a, 1, |a| - 1) {
      forall t: uint32 | InReach(t, a[|a| - 1]) && FileId(a, cursor, t) != 0
        ensures Closest(a, |a| - 1, FileId(a, cursor, t), t)
      {
        SearchExact(a, cursor, t);
      }
    } else {
      var i, j :| 1 <= i < j <= |a| - 1 && !Apart(a[i], a[j]);
      assert a[i + 1] <= a[j];
      NarrowGap(a, cursor, i);
    }
  }

  /** Between two slots less than 30 seconds apart there is a query for which the lower one is
      answered although the upper one is closer. */
  lemma NarrowGap(a: seq<uint32>, cursor: nat, i: nat)
    requires ValidIndex(a, cursor) && a[cursor] != 0 && 1 <= i < |a| - 1
    requires forall i, j :: 1 <= i < j < |a| ==> a[i] < a[j]
    requires !Apart(a[i], a[i + 1])
    ensures !AlwaysClosest(a, cursor)
  {
    var t: uint32 := if a[i + 1] - a[i] <= 15 then a[i + 1] else a[i] + 15;
    var p := BracketedForm(a, cursor, t);
    BracketUnique(a, p, t, i + 1);
    assert FileId(a, cursor, t) == i;
    assert Distance(a[i + 1], t) < Distance(a[i], t);
    assert !Closest(a, |a| - 1, i, t);
  }

  lemma BracketUnique(a: seq<uint32>, p: nat, t: uint32, q: nat)
    requires |a| > 0 && Brackets(a, |a| - 1, p, t) && 1 < q < |a| && a[q - 1] < t <= a[q]
    requires forall i, j :: 1 <= i < j < |a| ==> a[i] < a[j]
    ensures p == q
  {
  }

  // ---------- Full rings whose oldest slot is not slot 1 ----------

  /** The slot with age rank m (1 is the oldest) in a full ring of n slots. */
  function AgedSlot(n: nat, cursor: nat, m: nat): (s: nat)
    requires 1 <= cursor <= n && 1 <= m <= n
    ensures 1 <= s <= n
  {
    if cursor + m - 1 <= n then cursor + m - 1 else cursor + m - 1 - n
  }

  /** The ring unrolled from the cursor, oldest slot first; element 0 stays unused. */
  function Aged(a: seq<uint32>, cursor: nat): (b: seq<uint32>)
    requires ValidIndex(a, cursor)
    ensures |b| == |a|
    ensures forall m :: 1 <= m < |a| ==> b[m] == a[AgedSlot(|a| - 1, cursor, m)]
  {
    [a[0]] + a[cursor..] + a[1..cursor]
  }

  /** A full ring in age order from the cursor. */
  ghost predicate FullInAgeOrder(a: seq<uint32>, cursor: nat) {
    && ValidIndex(a, cursor)
    && (forall i :: 1 <= i < |a| ==> a[i] != 0)
    && Spaced(Aged(a, cursor), 1, |a| - 1)
  }

  /** The search the source's comments intend: by age from the cursor around the ring. */
  function AgeOrderFileId(a: seq<uint32>, cursor: nat, t: uint32): (slot: nat)
    requires ValidIndex(a, cursor)
  {
    var m := Decide(Aged(a, cursor), Probe(Aged(a, cursor), Bounds(1, |a| - 1), 0, t), t);
    if m == 0 then 0 else AgedSlot(|a| - 1, cursor, m)
  }

  /** Every slot has exactly one age rank. */
  lemma RankOfSlot(n: nat, cursor: nat, s: nat) returns (m: nat)
    requires 1 <= cursor <= n && 1 <= s <= n
    ensures 1 <= m <= n && AgedSlot(n, cursor, m) == s
    ensures forall m' :: 1 <= m' <= n && AgedSlot(n, cursor, m') == s ==> m' == m
  {
    m := if cursor <= s then s - cursor + 1 else s - cursor + 1 + n;
  }

  /** The intended search, on a full ring with any cursor: a closest slot, or none within the threshold. */
  lemma AgeOrderExact(a: seq<uint32>, cursor: nat, t: uint32)
    requires FullInAgeOrder(a, cursor) && |a| > 2 && InReach(t, a[AgedSlot(|a| - 1, cursor, |a| - 1)])
    ensures var r := AgeOrderFileId(a, cursor, t);
            && (r != 0 ==>
                  && 1 <= r < |a| && Distance(a[r], t) <= THRESHOLD
                  && forall i :: 1 <= i < |a| ==> Distance(a[r], t) <= Distance(a[i], t))
            && (r == 0 <==> forall i :: 1 <= i < |a| ==> Distance(a[i], t) > THRESHOLD)
  {
    var b, n := Aged(a, cursor), |a| - 1;
    assert ValidIndex(b, 1) && b[1] == a[AgedSlot(n, cursor, 1)] != 0;
    SearchExact(b, 1, t);
    CursorIrrelevant(b, 1, t);
    var m := FileId(b, 1, t);
    forall i | 1 <= i < |a|
      ensures m != 0 ==> Distance(b[m], t) <= Distance(a[i], t)
      ensures m == 0 ==> Distance(a[i], t) > THRESHOLD
    {
      var k := RankOfSlot(n, cursor, i);
      assert b[k] == a[i];
    }
  }

  /** With the cursor back on slot 1 the source's search is the intended one. */
  lemma CodeIsAgeOrderAtOne(a: seq<uint32>, t: uint32)
    requires ValidIndex(a, 1) && a[1] != 0
    ensures FileId(a, 1, t) == AgeOrderFileId(a, 1, t)
  {
    var n := |a| - 1;
    assert Aged(a, 1) == a;
    CursorIrrelevant(a, 1, t);
  }

  ghost predicate FindsEverySlot(a: seq<uint32>, cursor: nat)
    requires ValidIndex(a, cursor)
  {
    forall s :: 1 <= s < |a| ==> FileId(a, cursor, a[s]) == s
  }

  /** With the cursor past slot 1, the exact time of the oldest record finds nothing. */
  lemma OldestNeverFound(a: seq<uint32>, cursor: nat)
    requires FullInAgeOrder(a, cursor) && cursor > 1
    ensures FileId(a, cursor, a[cursor]) == 0
  {
    var n, t, b := |a| - 1, a[cursor], Aged(a, cursor);
    CursorIrrelevant(a, cursor, t);
    ProbeBrackets(a, Bounds(1, n), 0, t);
    var p := Probe(a, Bounds(1, n), 0, t);
    assert b[1] == t;
    forall s | 1 <= s <= n && s != cursor ensures Apart(t, a[s]) {
      var m := RankOfSlot(n, cursor, s);
      assert b[m] == a[s] && 1 < m;
    }
    assert p == 1;
  }

  /** A bisection of slots b that ends on position q (s, or the slot behind it) compares only slots on the same side
      of the cursor as s. */
  predicate StaysOnSide(b: Bounds, cursor: nat, s: nat, q: nat)
    decreases b.right - b.left
  {
    b.left < b.right ==>
      && (b.Middle() < cursor <==> s < cursor)
      && StaysOnSide(if b.Middle() < q then b.(left := b.Middle() + 1) else b.(right := b.Middle()), cursor, s, q)
  }

  /** The query is nearer to slot s than to any slot 30 seconds away, or on the tie that goes to the older. */
  predicate NearSlot(a: seq<uint32>, s: nat, t: uint32)
    requires s < |a|
  {
    -15 < t - a[s] <= 15
  }

  /** The first position at or above a query near slot s, among ascending times. */
  function PositionFor(a: seq<uint32>, s: nat, t: uint32): nat
    requires s < |a|
  {
    if t <= a[s] then s else s + 1
  }

  /** In a full ring, times ascend on each side of the cursor, and all times before it are newer. */
  lemma AcrossCursor(a: seq<uint32>, cursor: nat, m: nat, s: nat, t: uint32)
    requires FullInAgeOrder(a, cursor) && 1 <= m < |a| && 1 <= s < |a| && NearSlot(a, s, t)
    ensures (m < cursor <==> s < cursor) ==> (a[m] < t <==> m < PositionFor(a, s, t))
    ensures !(m < cursor <==> s < cursor) ==> (a[m] < t <==> s < cursor)
    ensures m != s ==> Distance(a[m], a[s]) >= 30
  {
    hide Aged;
    var n, b := |a| - 1, Aged(a, cursor);
    var x := RankOfSlot(n, cursor, m);
    var y := RankOfSlot(n, cursor, s);
    assert b[x] == a[m] && b[y] == a[s];
    assert x < y ==> Apart(b[x], b[y]);
    assert y < x ==> Apart(b[y], b[x]);
  }

  /** Searching for a time near a slot, the loop ends on the position for it if it only compares slots on the slot's
      side of the cursor, and otherwise neither on the slot nor just behind it. */
  lemma {:induction false} ProbeForSlot(a: seq<uint32>, cursor: nat, b: Bounds, s: nat, t: uint32)
    requires FullInAgeOrder(a, cursor) && b.Within(a, 0) && 1 <= s < |a| && NearSlot(a, s, t)
    requires b.left <= PositionFor(a, s, t) && s <= b.right
    ensures var p, q := Probe(a, b, 0, t), PositionFor(a, s, t);
            if StaysOnSide(b, cursor, s, q) then p == (if q <= b.right then q else b.right) else p < s || s + 1 < p
    decreases b.right - b.left
  {
    hide FullInAgeOrder;
    if b.left < b.right {
      AcrossCursor(a, cursor, b.Middle(), s, t);
      if b.Middle() < cursor <==> s < cursor {
        ProbeForSlot(a, cursor, Halve(a, b, 0, t), s, t);
      }
    }
  }

  /** Which queries near a record of a full ring are answered with its slot: exactly those whose bisection never
      compares a slot on the other side of the cursor. */
  lemma FoundNear(a: seq<uint32>, cursor: nat, s: nat, t: uint32)
    requires FullInAgeOrder(a, cursor) && 1 <= s < |a| && NearSlot(a, s, t) && (|a| > 2 || t <= a[s])
    ensures FileId(a, cursor, t) == s <==> StaysOnSide(Bounds(1, |a| - 1), cursor, s, PositionFor(a, s, t))
  {
    hide FileId, Probe, StaysOnSide;
    var b := Bounds(1, |a| - 1);
    CursorIrrelevant(a, cursor, t);
    ProbeForSlot(a, cursor, b, s, t);
    ProbeBrackets(a, b, 0, t);
    if s > 1 {
      AcrossCursor(a, cursor, s - 1, s, t);
    }
  }

  /** In particular, which records are found by their own time. */
  lemma FoundExactly(a: seq<uint32>, cursor: nat, s: nat)
    requires FullInAgeOrder(a, cursor) && 1 <= s < |a|
    ensures FileId(a, cursor, a[s]) == s <==> StaysOnSide(Bounds(1, |a| - 1), cursor, s, s)
  {
    hide FileId, StaysOnSide, FullInAgeOrder;
    FoundNear(a, cursor, s, a[s]);
  }

  /** The first slot compared is the middle one, so that no record on the other side of the cursor from it is found,
      by any time near its own. */
  lemma OtherHalfMissed(a: seq<uint32>, cursor: nat, s: nat, t: uint32)
    requires FullInAgeOrder(a, cursor) && |a| > 2 && 1 <= s < |a| && -15 < t - a[s] <= 15
    ensures cursor <= |a| / 2 && s < cursor ==> FileId(a, cursor, t) != s
    ensures cursor > |a| / 2 && s >= cursor ==> FileId(a, cursor, t) != s
  {
    hide FileId, FullInAgeOrder;
    FoundNear(a, cursor, s, t);
  }

  // ---------- Rings with older times from the cursor on ----------

  /** Slots before the cursor ascend; all slots from the cursor on are older than they, in any order. */
  ghost predicate NewThenOld(a: seq<uint32>, cursor: nat) {
    && ValidIndex(a, cursor) && cursor > 1 && Spaced(a, 1, cursor - 1)
    && forall m :: cursor <= m < |a| ==> a[m] < a[1]
  }

  lemma OlderThanNew(a: seq<uint32>, cursor: nat, m: nat, s: nat)
    requires NewThenOld(a, cursor) && 1 <= m < |a| && 1 <= s < cursor
    ensures a[m] < a[s] <==> m < s || cursor <= m
  {
    assert m < s ==> Apart(a[m], a[s]);
    assert s < m < cursor ==> Apart(a[s], a[m]);
    assert 1 < s ==> Apart(a[1], a[s]);
  }

  /** As ProbeForSlot, for a slot before the cursor. */
  lemma {:induction false} ProbeForNew(a: seq<uint32>, cursor: nat, b: Bounds, s: nat)
    requires NewThenOld(a, cursor) && b.Within(a, 0) && b.left <= s <= b.right && s < cursor
    ensures var p := Probe(a, b, 0, a[s]);
            if StaysOnSide(b, cursor, s, s) then p == s else s + 1 < p
    decreases b.right - b.left
  {
    hide NewThenOld;
    if b.left < b.right {
      OlderThanNew(a, cursor, b.Middle(), s);
      if b.Middle() < cursor {
        ProbeForNew(a, cursor, Halve(a, b, 0, a[s]), s);
      }
    }
  }

  /** Which slots before the cursor are found by their own time when older times follow: the same ones as in a full
      ring in age order. */
  lemma FoundAmongOlder(a: seq<uint32>, cursor: nat, s: nat)
    requires NewThenOld(a, cursor) && a[cursor] != 0 && 1 <= s < cursor
    ensures FileId(a, cursor, a[s]) == s <==> StaysOnSide(Bounds(1, |a| - 1), cursor, s, s)
  {
    hide FileId, Probe, StaysOnSide;
    var b := Bounds(1, |a| - 1);
    CursorIrrelevant(a, cursor, a[s]);
    ProbeForNew(a, cursor, b, s);
    assert s > 1 ==> Apart(a[s - 1], a[s]);
  }

  /** So while the older times reach down to the middle slot, no record before the cursor is found. */
  lemma NoneFoundBelowHalf(a: seq<uint32>, cursor: nat, s: nat)
    requires NewThenOld(a, cursor) && a[cursor] != 0 && 1 <= s < cursor <= |a| / 2
    ensures FileId(a, cursor, a[s]) != s
  {
    hide FileId, NewThenOld;
    FoundAmongOlder(a, cursor, s);
  }

  lemma {:induction false} BelowCursor(b: Bounds, cursor: nat, s: nat)
    requires b.left <= b.right < cursor && s < cursor
    ensures StaysOnSide(b, cursor, s, s)
    decreases b.right - b.left
  {
    if b.left < b.right {
      BelowCursor(if b.Middle() < s then b.(left := b.Middle() + 1) else b.(right := b.Middle()), cursor, s);
    }
  }

  /** If the bisection for the slot just before the cursor stays below the cursor, so do those for all slots below. */
  lemma {:induction false} NewestStays(b: Bounds, cursor: nat, s: nat)
    requires b.left <= s < cursor && b.left < cursor && cursor - 1 <= b.right
    requires StaysOnSide(b, cursor, cursor - 1, cursor - 1)
    ensures StaysOnSide(b, cursor, s, s)
    decreases b.right - b.left
  {
    if b.left < b.right {
      var m := b.Middle();
      if m < s {
        NewestStays(b.(left := m + 1), cursor, s);
      } else {
        BelowCursor(b.(right := m), cursor, s);
      }
    }
  }

  lemma {:induction false} OneSideAtOne(b: Bounds, s: nat)
    requires 1 <= b.left <= b.right && 1 <= s
    ensures StaysOnSide(b, 1, s, s)
    decreases b.right - b.left
  {
    if b.left < b.right {
      OneSideAtOne(if b.Middle() < s then b.(left := b.Middle() + 1) else b.(right := b.Middle()), s);
    }
  }

  lemma OwnTimeMissed(a: seq<uint32>, cursor: nat)
    requires ValidIndex(a, cursor) && FileId(a, cursor, a[cursor]) == 0
    ensures !FindsEverySlot(a, cursor)
  {
    hide FileId;
    assert FileId(a, cursor, a[cursor]) != cursor;
  }

  /** The source's search finds every record of a full ring by its own time
      if and only if the ring has just wrapped to slot 1. */
  lemma FindsEverySlotExactlyAtOne(a: seq<uint32>, cursor: nat)
    requires FullInAgeOrder(a, cursor)
    ensures FindsEverySlot(a, cursor) <==> cursor == 1
  {
    hide FileId, StaysOnSide, Spaced, Aged;
    if cursor == 1 {
      forall s | 1 <= s < |a| ensures FileId(a, 1, a[s]) == s {
        FoundExactly(a, 1, s);
        OneSideAtOne(Bounds(1, |a| - 1), s);
      }
    } else {
      OldestNeverFound(a, cursor);
      OwnTimeMissed(a, cursor);
    }
  }

  lemma RotatedRing(a: seq<uint32>)
    requires a == [0, 1090, 1030, 1060]
    ensures FullInAgeOrder(a, 2)
  {
    assert a[1] == 1090 && a[2] == 1030 && a[3] == 1060;
    var b := Aged(a, 2);
    assert b[1] == a[2] && b[2] == a[3] && b[3] == a[1];
    forall i, j | 1 <= i < j <= 3 ensures Apart(b[i], b[j]) {
      assert i == 1 || i == 2;
      assert j == 2 || j == 3;
    }
  }

  /** A full ring of three with the cursor on slot 2: the record at time 1030 is held in slot 2, and the
      search for 1030 answers "no file", where the search by age answers slot 2. */
  lemma RotatedRingCounterexample(a: seq<uint32>)
    requires a == [0, 1090, 1030, 1060]
    ensures FullInAgeOrder(a, 2) && FileId(a, 2, 1030) == 0 && AgeOrderFileId(a, 2, 1030) == 2
  {
    RotatedRing(a);
    OldestNeverFound(a, 2);
    AgeOrderExact(a, 2, a[2]);
    assert Distance(a[2], a[2]) == 0;
  }
}
