/** The timestamp index in memory and the configuration file that persists cursor and index.

    The file starts with an 8-byte header (capacity, cursor, debug time); the word of slot i follows
    at byte 8 + 4 * i. */
module ConfigFile {
  import opened Machine
  import opened ByteFile

  const HEADER := 8

  // ---------- The index in memory ----------

  /** dynamic_timestamp_array_handler on an index ([] is null), for an allocation that succeeds.
      `junk` is what freshly allocated memory happens to contain. */
  function Resized(index: seq<uint32>, items: nat, junk: nat -> uint32): (r: seq<uint32>)
    ensures |r| == if items == 0 then 0 else items + 1
  {
    if items == 0 then []
    else if |index| == items + 1 then index
    else if index == [] then [junk(0)] + Repeat(0, items)
    else if |index| - 1 < items then
      var size := |index| - 1;
      index[..size] + [junk(size)] + Repeat(0, items - size)
    else
      JunkWords(items + 1, junk)
  }

  /** Resized, word by word. */
  lemma ResizedIs(index: seq<uint32>, items: nat, junk: nat -> uint32, t: seq<uint32>)
    requires items > 0 && |index| != items + 1 && |t| == items + 1
    requires var size := if index == [] then 0 else |index| - 1;
             forall i :: 0 <= i <= items ==>
               t[i] == if i > size then 0 else if i < size && size < items then index[i] else junk(i)
    ensures t == Resized(index, items, junk)
  {
  }

  function JunkWords(n: nat, junk: nat -> uint32): (w: seq<uint32>)
    ensures |w| == n && forall i :: 0 <= i < n ==> w[i] == junk(i)
  {
    if n == 0 then [] else JunkWords(n - 1, junk) + [junk(n - 1)]
  }

  // ---------- Words in the file ----------

  /** Memory word at slot i after the file is read over it. */
  function WordOver(f: File, i: nat, mem: uint32): uint32 {
    Word32(ReadInto(f, HEADER + 4 * i, Bytes32(mem)))
  }

  const ZERO_WORD: seq<uint8> := [0, 0, 0, 0]

  /** The four bytes of slot i on disk; what the file does not reach counts as zero. */
  function DiskBytes(f: File, i: nat): (b: seq<uint8>)
    ensures |b| == 4
  {
    ReadInto(f, HEADER + 4 * i, ZERO_WORD)
  }

  function DiskWord(f: File, i: nat): uint32 {
    Word32(DiskBytes(f, i))
  }

  /** Over a zeroed word, reading gives the word on disk. */
  lemma WordOverZero(f: File, i: nat)
    ensures WordOver(f, i, 0) == DiskWord(f, i)
  {
    assert Bytes32(0) == ZERO_WORD by {
      assert Word32(ZERO_WORD) == 0;
      Word32Determines();
    }
  }

  /** Memory words after the part of the file behind the header is read over them. */
  function IndexOver(f: File, mem: seq<uint32>): (r: seq<uint32>)
    ensures |r| == |mem|
    ensures forall i :: 0 <= i < |mem| ==> r[i] == WordOver(f, i, mem[i])
    decreases |mem|
  {
    if mem == [] then []
    else
      var last := |mem| - 1;
      IndexOver(f, mem[..last]) + [WordOver(f, last, mem[last])]
  }

  /** The memory image of the whole array. */
  function WordBytes(ws: seq<uint32>): (b: seq<uint8>)
    ensures |b| == 4 * |ws|
    decreases |ws|
  {
    if ws == [] then [] else WordBytes(ws[..|ws| - 1]) + Bytes32(ws[|ws| - 1])
  }

  lemma {:induction false} WordBytesAt(ws: seq<uint32>, i: nat)
    requires i < |ws|
    ensures WordBytes(ws)[4 * i..4 * i + 4] == Bytes32(ws[i])
    decreases |ws|
  {
    if i < |ws| - 1 {
      var front := ws[..|ws| - 1];
      WordBytesAt(front, i);
      assert WordBytes(ws)[4 * i..4 * i + 4] == WordBytes(front)[4 * i..4 * i + 4];
    }
  }

  // ---------- Header ----------

  datatype Header = Header(max: uint16, cursor: uint16, temp: uint32)

  function HeaderBytes(h: Header): (b: seq<uint8>)
    ensures |b| == HEADER
  {
    Bytes16(h.max) + Bytes16(h.cursor) + Bytes32(h.temp)
  }

  /** The three header variables after the three reads at the front of the file. */
  function HeaderOver(f: File, mem: Header): Header {
    Header(Word16(ReadInto(f, 0, Bytes16(mem.max))),
           Word16(ReadInto(f, 2, Bytes16(mem.cursor))),
           Word32(ReadInto(f, 4, Bytes32(mem.temp))))
  }

  lemma HeaderReadBack(f: File, h: Header, mem: Header)
    requires HasAt(f, 0, HeaderBytes(h))
    ensures HeaderOver(f, mem) == h
  {
    var a, b, c := Bytes16(h.max), Bytes16(h.cursor), Bytes32(h.temp);
    HasSplit(f, 0, a + b, c);
    HasSplit(f, 0, a, b);
    ReadHad(f, 0, a, Bytes16(mem.max));
    ReadHad(f, 2, b, Bytes16(mem.cursor));
    ReadHad(f, 4, c, Bytes32(mem.temp));
  }

  // ---------- store_config ----------

  /** The file after store_config. The index may be null only when the whole index is to be written,
      and then nothing follows the header. */
  function Stored(c: Option<File>, h: Header, index: seq<uint32>, all: bool): File
    requires c.None? || all || h.cursor < |index|
  {
    var f := WriteAt(if c.Some? then c.value else [], 0, HeaderBytes(h));
    if c.None? || all then
      WriteAt(f, HEADER, WordBytes(index))
    else
      WriteAt(f, HEADER + 4 * h.cursor, Bytes32(index[h.cursor]))
  }

  lemma StoredHeader(c: Option<File>, h: Header, index: seq<uint32>, all: bool)
    requires c.None? || all || h.cursor < |index|
    ensures HasAt(Stored(c, h, index, all), 0, HeaderBytes(h))
  {
    hide WriteAt, WordBytes, HeaderBytes;
    var f := if c.Some? then c.value else [];
    HasWritten(f, 0, HeaderBytes(h));
    var g := WriteAt(f, 0, HeaderBytes(h));
    HasFrame(g, HEADER, WordBytes(index), 0, HeaderBytes(h));
    if !(c.None? || all) {
      HasFrame(g, HEADER + 4 * h.cursor, Bytes32(index[h.cursor]), 0, HeaderBytes(h));
    }
  }

  /** A file that does not exist reads as an index of zeroes. */
  function OldWord(c: Option<File>, i: nat): uint32 {
    if c.None? then 0 else DiskWord(c.value, i)
  }

  /** Rewriting the header leaves the words. */
  lemma BytesAfterHeader(f: File, h: seq<uint8>, i: nat)
    requires |h| == HEADER
    ensures DiskBytes(WriteAt(f, 0, h), i) == DiskBytes(f, i)
  {
    ReadElsewhere(f, 0, h, HEADER + 4 * i, ZERO_WORD);
  }

  lemma BytesAfterWord(f: File, slot: nat, w: seq<uint8>, i: nat)
    requires |w| == 4
    ensures DiskBytes(WriteAt(f, HEADER + 4 * slot, w), i) == if i == slot then w else DiskBytes(f, i)
  {
    if i == slot {
      ReadBack(f, HEADER + 4 * i, w, ZERO_WORD);
    } else {
      ReadElsewhere(f, HEADER + 4 * slot, w, HEADER + 4 * i, ZERO_WORD);
    }
  }

  lemma BytesAfterIndex(f: File, ws: seq<uint8>, i: nat)
    requires |ws| % 4 == 0
    ensures DiskBytes(WriteAt(f, HEADER, ws), i) ==
            if 4 * i + 4 <= |ws| then ws[4 * i..4 * i + 4] else DiskBytes(f, i)
  {
    if 4 * i + 4 <= |ws| {
      var g := WriteAt(f, HEADER, ws);
      HasWritten(f, HEADER, ws);
      HasSlice(g, HEADER, ws, 4 * i, 4 * i + 4);
      ReadHad(g, HEADER + 4 * i, ws[4 * i..4 * i + 4], ZERO_WORD);
    } else {
      ReadElsewhere(f, HEADER, ws, HEADER + 4 * i, ZERO_WORD);
    }
  }

  /** The incremental store changes the word of the cursor's slot and no other. */
  lemma StoredIncremental(c: File, h: Header, index: seq<uint32>, i: nat)
    requires h.cursor < |index|
    ensures DiskWord(Stored(Some(c), h, index, false), i) ==
            if i == h.cursor then index[i] else DiskWord(c, i)
  {
    BytesAfterHeader(c, HeaderBytes(h), i);
    BytesAfterWord(WriteAt(c, 0, HeaderBytes(h)), h.cursor, Bytes32(index[h.cursor]), i);
  }

  /** The full store writes every slot of the index and leaves the words behind it. */
  lemma StoredFull(c: Option<File>, h: Header, index: seq<uint32>, all: bool, i: nat)
    requires c.None? || all
    ensures DiskWord(Stored(c, h, index, all), i) == if i < |index| then index[i] else OldWord(c, i)
  {
    var before := if c.Some? then c.value else [];
    BytesAfterHeader(before, HeaderBytes(h), i);
    BytesAfterIndex(WriteAt(before, 0, HeaderBytes(h)), WordBytes(index), i);
    if i < |index| {
      WordBytesAt(index, i);
    } else if c.None? {
      assert DiskBytes([], i) == ZERO_WORD;
    }
  }

  /** The file already agrees with the index except at one slot, and is long enough. */
  ghost predicate MatchesExcept(c: File, index: seq<uint32>, slot: nat) {
    && (forall i :: 0 <= i < |index| && i != slot ==> DiskWord(c, i) == index[i])
    && (HEADER + 4 * |index| <= |c| || slot == |index| - 1)
  }

  lemma SameWordSameByte(f: File, g: File, p: nat)
    requires HEADER <= p < |f| && p < |g|
    requires DiskWord(f, (p - HEADER) / 4) == DiskWord(g, (p - HEADER) / 4)
    ensures f[p] == g[p]
  {
    var i, k := (p - HEADER) / 4, (p - HEADER) % 4;
    assert p == HEADER + 4 * i + k;
    Word32Determines();
    assert DiskBytes(f, i)[k] == f[p];
    assert DiskBytes(g, i)[k] == g[p];
  }

  lemma BytesBehindIndex(c: File, h: Header, index: seq<uint32>, p: nat)
    requires h.cursor < |index|
    requires p < HEADER || HEADER + 4 * |index| <= p < |c|
    ensures p < |Stored(Some(c), h, index, false)| && p < |Stored(Some(c), h, index, true)|
    ensures Stored(Some(c), h, index, false)[p] == Stored(Some(c), h, index, true)[p]
  {
  }

  /** The incremental store leaves the same bytes as the full rewrite exactly when the file
      matched the index everywhere but at the cursor's slot. */
  lemma IncrementalIsFull(c: File, h: Header, index: seq<uint32>)
    requires h.cursor < |index|
    ensures Stored(Some(c), h, index, false) == Stored(Some(c), h, index, true)
            <==> MatchesExcept(c, index, h.cursor)
  {
    var part, full := Stored(Some(c), h, index, false), Stored(Some(c), h, index, true);
    forall i | 0 <= i < |index|
      ensures DiskWord(part, i) == if i == h.cursor then index[i] else DiskWord(c, i)
      ensures DiskWord(full, i) == index[i]
    {
      StoredIncremental(c, h, index, i);
      StoredFull(Some(c), h, index, true, i);
    }
    StoredLength(c, h, index);
    if MatchesExcept(c, index, h.cursor) {
      forall p | 0 <= p < |full| ensures part[p] == full[p] {
        if HEADER <= p < HEADER + 4 * |index| {
          assert (p - HEADER) / 4 < |index|;
          SameWordSameByte(part, full, p);
        } else {
          BytesBehindIndex(c, h, index, p);
        }
      }
      assert part == full;
    }
  }

  lemma StoredLength(c: File, h: Header, index: seq<uint32>)
    requires h.cursor < |index|
    ensures |Stored(Some(c), h, index, false)| == Max(|c|, HEADER + 4 * h.cursor + 4)
    ensures |Stored(Some(c), h, index, true)| == Max(|c|, HEADER + 4 * |index|)
  {
  }

  // ---------- Words through an open file ----------

  lemma WordBytesLast(ws: seq<uint32>, k: nat)
    requires k < |ws|
    ensures WordBytes(ws[..k + 1]) == WordBytes(ws[..k]) + Bytes32(ws[k])
  {
    assert ws[..k + 1][..k] == ws[..k];
  }

  /** Writes an array of words at the position. */
  method WriteWords(f: OpenFile, a: array<uint32>)
    modifies f
    ensures f.bytes == WriteAt(old(f.bytes), old(f.pos), WordBytes(a[..]))
  {
    var k := 0;
    while k < a.Length
      invariant 0 <= k <= a.Length
      invariant f.bytes == WriteAt(old(f.bytes), old(f.pos), WordBytes(a[..k]))
      invariant f.pos == old(f.pos) + 4 * k
    {
      WordBytesLast(a[..], k);
      assert a[..][..k] == a[..k] && a[..][..k + 1] == a[..k + 1];
      WritesJoin(old(f.bytes), old(f.pos), WordBytes(a[..k]), Bytes32(a[k]));
      f.Write(Bytes32(a[k]));
      k := k + 1;
    }
    assert a[..a.Length] == a[..];
  }

  /** Reads words over an array, from just behind the header. */
  method ReadWords(f: OpenFile, a: array<uint32>)
    requires f.pos == HEADER <= |f.bytes|
    modifies f`pos, a
    ensures a[..] == IndexOver(f.bytes, old(a[..]))
  {
    hide ReadInto, Word32, Bytes32, IndexOver, Advanced;
    var k := 0;
    while k < a.Length
      invariant 0 <= k <= a.Length
      invariant SamePosition(f.bytes, f.pos, HEADER + 4 * k)
      invariant forall i :: 0 <= i < k ==> a[i] == WordOver(f.bytes, i, old(a[i]))
      invariant forall i :: k <= i < a.Length ==> a[i] == old(a[i])
    {
      ReadAtSamePosition(f.bytes, f.pos, HEADER + 4 * k, Bytes32(a[k]));
      var word := f.Read(Bytes32(a[k]));
      a[k] := Word32(word);
      k := k + 1;
    }
  }

  /** The three header writes at the front of the file. */
  method WriteHeader(f: OpenFile, h: Header)
    requires f.pos == 0
    modifies f
    ensures f.bytes == WriteAt(old(f.bytes), 0, HeaderBytes(h)) && f.pos == HEADER
  {
    hide WriteAt, Bytes16, Bytes32;
    f.Write(Bytes16(h.max));
    f.Write(Bytes16(h.cursor));
    WritesJoin(old(f.bytes), 0, Bytes16(h.max), Bytes16(h.cursor));
    f.Write(Bytes32(h.temp));
    WritesJoin(old(f.bytes), 0, Bytes16(h.max) + Bytes16(h.cursor), Bytes32(h.temp));
  }

  /** The three header reads over the variables `mem`. */
  method ReadHeader(f: OpenFile, mem: Header) returns (h: Header)
    requires f.pos == 0 && HEADER <= |f.bytes|
    modifies f`pos
    ensures h == HeaderOver(f.bytes, mem) && f.pos == HEADER
  {
    hide ReadInto, Bytes16, Bytes32, Word16, Word32;
    var max := f.Read(Bytes16(mem.max));
    var cursor := f.Read(Bytes16(mem.cursor));
    var temp := f.Read(Bytes32(mem.temp));
    h := Header(Word16(max), Word16(cursor), Word32(temp));
  }
}
