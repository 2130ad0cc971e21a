/** The paging reader: which slots a request visits, and what its packets carry. */
module Paging {
  import opened Machine
  import opened ByteFile
  import opened RingMath
  import opened RecordFile
  import opened ConfigFile
  import opened Store
  import opened TimestampSearch

  // ---------- Which slots ----------

  /** The id before b, with wrap. */
  function Before(n: nat, b: nat): (c: nat)
    requires 1 <= b <= n
    ensures 1 <= c <= n
  {
    if b == 1 then n else b - 1
  }

  /** The ids a request for `count` records before id b visits, in order. */
  function Ids(n: nat, b: nat, count: nat): (ids: seq<nat>)
    requires 1 <= b <= n
    ensures |ids| == count
    ensures forall i :: 0 <= i < count ==> 1 <= ids[i] <= n
    decreases count
  {
    if count == 0 then [] else [Before(n, b)] + Ids(n, Before(n, b), count - 1)
  }

  lemma BeforeIsMod(n: nat, b: nat)
    requires 1 <= b <= n
    ensures Before(n, b) == (b - 2) % n + 1
  {
    if b == 1 {
      ModUnique(-1, n, -1, n - 1);
    } else {
      ModUnique(b - 2, n, 0, b - 2);
    }
  }

  /** The k-th id (from 0) of a request before b is ((b - 2 - k) mod n) + 1. */
  lemma {:induction false} IdAt(n: nat, b: nat, count: nat, k: nat)
    requires 1 <= b <= n && k < count
    ensures Ids(n, b, count)[k] == (b - 2 - k) % n + 1
    decreases k
  {
    BeforeIsMod(n, b);
    if k > 0 {
      IdAt(n, Before(n, b), count - 1, k - 1);
      if b == 1 {
        ModShift(b - 2 - k, n, 1);
      }
    }
  }

  /** No id repeats within one turn of the ring. */
  lemma IdsDistinct(n: nat, b: nat, count: nat, i: nat, j: nat)
    requires 1 <= b <= n && i < j < count <= n
    ensures Ids(n, b, count)[i] != Ids(n, b, count)[j]
  {
    IdAt(n, b, count, i);
    IdAt(n, b, count, j);
    var x, y := b - 2 - i, b - 2 - j;
    if x % n == y % n {
      DivMod(x, n);
      DivMod(y, n);
      assert n * (x / n - y / n) == n * (x / n) - n * (y / n) == j - i;
      MultipleAway(n, x / n - y / n);
    }
  }

  /** A request for a full turn visits every slot: together with IdsDistinct, a permutation of 1..n. */
  lemma FullTurnVisitsAll(n: nat, b: nat, slot: nat) returns (k: nat)
    requires 1 <= b <= n && 1 <= slot <= n
    ensures k < n && Ids(n, b, n)[k] == slot
  {
    k := if slot < b then b - 1 - slot else b - 1 - slot + n;
    IdAt(n, b, n, k);
    if slot < b {
      ModUnique(b - 2 - k, n, 0, slot - 1);
    } else {
      ModUnique(b - 2 - k, n, -1, slot - 1);
    }
  }

  /** Page composition: a page of p followed by a page of q that starts before the last id received
      visits the ids of one request for p + q. */
  lemma {:induction false} PagesCompose(n: nat, b: nat, p: nat, q: nat)
    requires 1 <= b <= n && p >= 1
    ensures Ids(n, b, p) + Ids(n, Ids(n, b, p)[p - 1], q) == Ids(n, b, p + q)
    decreases p
  {
    hide Before;
    var c := Before(n, b);
    if p > 1 {
      PagesCompose(n, c, p - 1, q);
      Prepended([c], Ids(n, c, p - 1), Ids(n, Ids(n, c, p - 1)[p - 2], q));
    }
  }

  lemma Prepended<T>(a: seq<T>, b: seq<T>, c: seq<T>)
    ensures (a + b) + c == a + (b + c)
  {
  }

  // ---------- What a packet carries ----------

  /** Byte-order conversion. The device drivers' converters are not part of this model: `segment(i)` maps
      sub-struct i to one of the same size. */
  datatype Converters = Converters(net32: uint32 -> uint32, net16: uint16 -> uint16,
                                   segment: (nat, seq<uint8>) -> seq<uint8>)
  {
    ghost predicate Valid() {
      forall i: nat, b: seq<uint8> :: |segment(i, b)| == |b|
    }
  }

  /** convert_hk_endianness converts these segments; the others have no converter. */
  predicate HasConverter(i: nat) {
    i == ATHENA || i == EPS || i == UHF || i == SBAND
  }

  function ConvertFrom(cv: Converters, i: nat, segments: seq<seq<uint8>>): (converted: seq<seq<uint8>>)
    ensures |converted| == |segments|
    decreases |segments|
  {
    if segments == [] then []
    else
      [if HasConverter(i) then cv.segment(i, segments[0]) else segments[0]] + ConvertFrom(cv, i + 1, segments[1..])
  }

  /** convert_hk_endianness. */
  function Convert(cv: Converters, r: Record): Record {
    Record(TimeOrder(r.timeOrder.final, cv.net32(r.timeOrder.unixTime), cv.net16(r.timeOrder.dataPosition)),
           ConvertFrom(cv, 0, r.segments))
  }

  /** The record memory as it is sent: converted, and flagged when more packets follow. */
  function Prepared(cv: Converters, r: Record, more: bool): Record {
    var c := Convert(cv, r);
    if more then c.(timeOrder := c.timeOrder.(final := 1)) else c
  }

  const GET_HK: uint8 := 0
  const STATUS_OK: uint8 := 0

  /** The packet: subservice, status, and all segments but the last in file order. */
  function Packet(r: Record): (data: seq<uint8>)
    requires |r.segments| == SEGMENTS
    ensures |data| > 2
  {
    [GET_HK, STATUS_OK] + TimeBytes(r.timeOrder) + Flatten(r.segments[..DFGM])
  }

  lemma {:induction false} ConvertedAt(cv: Converters, i: nat, segments: seq<seq<uint8>>, k: nat)
    requires k < |segments|
    ensures ConvertFrom(cv, i, segments)[k] ==
            if HasConverter(i + k) then cv.segment(i + k, segments[k]) else segments[k]
    decreases k
  {
    if k > 0 {
      ConvertedAt(cv, i + 1, segments[1..], k - 1);
    }
  }

  lemma ConvertFits(l: Layout, cv: Converters, r: Record, more: bool)
    requires cv.Valid() && r.Fits(l)
    ensures Prepared(cv, r, more).Fits(l)
  {
    forall k | 0 <= k < |r.segments| ensures |ConvertFrom(cv, 0, r.segments)[k]| == |r.segments[k]| {
      ConvertedAt(cv, 0, r.segments, k);
    }
  }

  /** A packet is the two leading bytes and the converted record's file image without its last segment;
      it is shorter than the buffer requested for it by exactly that segment; and of all its bytes only
      the `final` one depends on whether more packets follow. */
  lemma PacketLayout(l: Layout, cv: Converters, r: Record, more: bool)
    requires l.Valid() && cv.Valid() && r.Fits(l)
    ensures var c := Prepared(cv, r, more);
            && |c.segments| == SEGMENTS && c.segments[DFGM] == r.segments[DFGM]
            && Packet(c) + r.segments[DFGM] == [GET_HK, STATUS_OK] + Image(c)
            && |Packet(c)| + l.sizes[DFGM] == SizeOfHousekeeping(l) + 2
            && Packet(c)[2] == (if more then 1 else r.timeOrder.final)
            && Packet(Prepared(cv, r, true)) == Packet(c)[2 := 1]
  {
    ConvertFits(l, cv, r, more);
    ConvertedAt(cv, 0, r.segments, DFGM);
    var c := Prepared(cv, r, more);
    assert c.segments == c.segments[..DFGM] + [c.segments[DFGM]];
    FlattenLast(c.segments[..DFGM], c.segments[DFGM]);
    assert Packet(c) + r.segments[DFGM] == [GET_HK, STATUS_OK] + Image(c);
    SlotSize(l, c);
    FinalByte(c, 1);
    assert c.(timeOrder := c.timeOrder.(final := 1)) == Prepared(cv, r, true);
  }

  /** The bytes of a packet, from the stored record: two leading zeroes, the `final` byte, time and position in network
      order, and seven segments in file order, the second to the fifth converted. */
  lemma PacketBytes(l: Layout, cv: Converters, r: Record, more: bool)
    requires l.Valid() && cv.Valid() && r.Fits(l)
    ensures var c := Prepared(cv, r, more);
            && |r.segments| == |c.segments| == 8
            && Packet(c) == [0, 0, if more then 1 else r.timeOrder.final]
                            + Bytes32(cv.net32(r.timeOrder.unixTime)) + Bytes16(cv.net16(r.timeOrder.dataPosition))
                            + r.segments[0] + cv.segment(1, r.segments[1]) + cv.segment(2, r.segments[2])
                            + cv.segment(3, r.segments[3]) + cv.segment(4, r.segments[4])
                            + r.segments[5] + r.segments[6]
  {
    hide Converters.Valid, Flatten, Sum, Packet;
    ConvertedSegments(cv, r);
    PacketShape(Prepared(cv, r, more));
  }

  lemma ConvertedSegments(cv: Converters, r: Record)
    requires |r.segments| == 8
    ensures var segments := ConvertFrom(cv, 0, r.segments);
            forall k :: 0 <= k < 8 ==>
              segments[k] == if 1 <= k <= 4 then cv.segment(k, r.segments[k]) else r.segments[k]
  {
    hide ConvertFrom;
    forall k | 0 <= k < 8
      ensures ConvertFrom(cv, 0, r.segments)[k] == if 1 <= k <= 4 then cv.segment(k, r.segments[k]) else r.segments[k]
    {
      ConvertedAt(cv, 0, r.segments, k);
    }
  }

  lemma PacketShape(r: Record)
    requires |r.segments| == 8
    ensures Packet(r) == [0, 0, r.timeOrder.final] + Bytes32(r.timeOrder.unixTime) + Bytes16(r.timeOrder.dataPosition)
                         + r.segments[0] + r.segments[1] + r.segments[2] + r.segments[3]
                         + r.segments[4] + r.segments[5] + r.segments[6]
  {
    hide Flatten;
    SevenSegments(r.segments);
  }

  lemma FinalByte(r: Record, final: uint8)
    requires |r.segments| == SEGMENTS
    ensures Packet(r.(timeOrder := r.timeOrder.(final := final))) == Packet(r)[2 := final]
    ensures Packet(r)[2] == r.timeOrder.final
  {
    assert TimeBytes(r.timeOrder.(final := final)) == TimeBytes(r.timeOrder)[0 := final];
  }
}
