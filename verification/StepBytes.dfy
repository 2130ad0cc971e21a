/** What each step does on every valid state, word by word and byte by byte: the RAM words, and which bytes of the two
    files change to what. */
module StepBytes {
  import opened Machine
  import opened ByteFile
  import opened RecordFile
  import opened ConfigFile
  import opened Store

  // ---------- The configuration file ----------

  lemma HasSplit3(f: File, a: seq<uint8>, b: seq<uint8>, c: seq<uint8>)
    requires HasAt(f, 0, a + b + c)
    ensures |a| + |b| + |c| <= |f|
    ensures f[..|a|] == a && f[|a|..|a| + |b|] == b && f[|a| + |b|..|a| + |b| + |c|] == c
  {
    HasSplit(f, 0, a + b, c);
    HasSplit(f, 0, a, b);
  }

  /** A store writes the capacity to bytes 0-1, the cursor to 2-3, the debug time to 4-7 and the word of slot i to
      8 + 4i, of every slot or of the cursor's alone; every other byte of an existing file stays. */
  lemma StoredBytes(c: Option<File>, h: Header, index: seq<uint32>, all: bool)
    requires c.None? || all || h.cursor < |index|
    ensures var f := Stored(c, h, index, all);
            && |f| >= 8 && f[..2] == Bytes16(h.max) && f[2..4] == Bytes16(h.cursor) && f[4..8] == Bytes32(h.temp)
            && (forall i :: 0 <= i < |index| && (c.None? || all || i == h.cursor) ==>
                  12 + 4 * i <= |f| && f[8 + 4 * i..12 + 4 * i] == Bytes32(index[i]))
            && (c.Some? ==> |c.value| <= |f|)
            && (c.Some? && !all ==>
                  forall p :: 8 <= p < |c.value| && !(8 + 4 * h.cursor <= p < 12 + 4 * h.cursor) ==> f[p] == c.value[p])
            && (c.Some? && all ==> forall p :: 8 + 4 * |index| <= p < |c.value| ==> f[p] == c.value[p])
  {
    hide HeaderBytes, WordBytes, WriteAt;
    StoredHeader(c, h, index, all);
    HeaderSplit(Stored(c, h, index, all), h);
    var g := WriteAt(if c.Some? then c.value else [], 0, HeaderBytes(h));
    if c.None? || all {
      WordsAt(g, index);
    }
  }

  lemma HeaderSplit(f: File, h: Header)
    requires HasAt(f, 0, HeaderBytes(h))
    ensures |f| >= 8 && f[..2] == Bytes16(h.max) && f[2..4] == Bytes16(h.cursor) && f[4..8] == Bytes32(h.temp)
  {
    HasSplit3(f, Bytes16(h.max), Bytes16(h.cursor), Bytes32(h.temp));
  }

  lemma WordsAt(g: File, index: seq<uint32>)
    requires |g| >= 8
    ensures var f := WriteAt(g, HEADER, WordBytes(index));
            forall i :: 0 <= i < |index| ==> 12 + 4 * i <= |f| && f[8 + 4 * i..12 + 4 * i] == Bytes32(index[i])
  {
    hide WordBytes;
    var ws := WordBytes(index);
    var f := WriteAt(g, HEADER, ws);
    forall i | 0 <= i < |index| ensures 12 + 4 * i <= |f| && f[8 + 4 * i..12 + 4 * i] == Bytes32(index[i]) {
      WordBytesAt(index, i);
      HasWritten(g, HEADER, ws);
      HasSlice(f, HEADER, ws, 4 * i, 4 * i + 4);
    }
  }

  /** A load takes the capacity from bytes 0-1, the last cursor from 2-3, stepping past it with wrap, the debug time
      from 4-7 and the word of slot i from 8 + 4i; words the file does not reach are those of the resized array. */
  lemma LoadBytes(s: State, junk: Junk)
    requires s.Valid() && s.disk.config.Some?
    ensures var f, t := s.disk.config.value, Load(s, junk);
            && |f| >= 8
            && var cursor := Word16(f[2..4]);
               && t.ram.max == Word16(f[..2]) && t.ram.temp == Word32(f[4..8])
               && t.ram.cursor == (if cursor == t.ram.max then 1 else cursor + 1)
               && t.ram.loaded == s.ram.loaded && t.disk == s.disk && |t.ram.index| == t.ram.max + 1
               && forall i :: 0 <= i <= t.ram.max ==>
                    && (12 + 4 * i <= |f| ==> t.ram.index[i] == Word32(f[8 + 4 * i..12 + 4 * i]))
                    && (|f| <= 8 + 4 * i ==> t.ram.index[i] == Resized(s.ram.index, t.ram.max, junk)[i])
  {
    hide Resized, Word16, Word32, Bytes16, Bytes32;
    HeaderReached(s.disk.config.value, s.ram.Head());
  }

  // ---------- The record file ----------

  /** A slot's position: (slot - 1) times the size of a record, seven bytes and the segments. */
  lemma SlotPosition(l: Layout, slot: nat)
    requires l.Valid() && slot >= 1
    ensures Offset(l, slot) == (slot - 1) * (7 + Sum(l.sizes))
  {
    OffsetIsProduct(l, slot);
    WholeSize(l);
  }

  lemma WholeSize(l: Layout)
    requires l.Valid()
    ensures SizeOfHousekeeping(l) == 7 + Sum(l.sizes)
  {
  }

  /** Bytes written at a slot land at its position; every other byte stays, and a gap is filled with zeroes. */
  lemma SlotBytes(l: Layout, records: Option<File>, slot: nat, data: seq<uint8>)
    requires l.Valid() && slot >= 1 && data != []
    ensures WriteSlot(l, records, slot, data).Some?
    ensures var before := if records.Some? then records.value else [];
            var f, pos := WriteSlot(l, records, slot, data).value, Offset(l, slot);
            && |f| == Max(|before|, pos + |data|) && f[pos..pos + |data|] == data
            && forall p :: 0 <= p < |f| && !(pos <= p < pos + |data|) ==>
                 f[p] == if p < |before| then before[p] else 0
  {
    hide Offset;
    HasWritten(if records.Some? then records.value else [], Offset(l, slot), data);
  }

  // ---------- The steps ----------

  /** The lazy load sets its flag in any case. If it is set already, without a file, or if the file cannot be opened,
      that is all; without memory for an index of the file's capacity the header is read and the cursor not
      advanced. */
  lemma LoadedByExactly(s: State, fault: LoadFault, junk: Junk)
    requires s.Valid()
    ensures s.ram.loaded || s.disk.config.None? || fault == ConfigNotOpened ==>
              LoadedBy(s, fault, junk) == s.(ram := s.ram.(loaded := true))
    ensures !s.ram.loaded && s.disk.config.Some? && fault != ConfigNotOpened ==>
              var f := s.disk.config.value;
              && |f| >= 8
              && LoadedBy(s, fault, junk)
                 == if fault == NoMemory && |s.ram.index| != Word16(f[..2]) + 1
                    then s.(ram := Ram(Word16(f[..2]), Word16(f[2..4]), s.ram.index, true, Word32(f[4..8])))
                    else var t := Load(s, junk); t.(ram := t.ram.(loaded := true))
  {
    hide Resized, Word16, Word32, Bytes16, Bytes32, IndexOver;
    if s.disk.config.Some? {
      HeaderReached(s.disk.config.value, s.ram.Head());
    }
  }

  /** A populate once the configuration has been loaded or not: the record goes to the cursor's slot, with that slot as
      its position; its time to the index word there, other words staying if the array has the capacity's size and
      being zero if there is none yet; the configuration is stored with the old cursor; then the cursor steps on. */
  lemma WrittenExactly(l: Layout, s: State, r: Record, junk: Junk)
    requires s.Writable()
    ensures var t, c, max := Written(l, s, r, junk), s.ram.cursor, s.ram.max;
            && t.ram.max == max && t.ram.loaded == s.ram.loaded && t.ram.temp == s.ram.temp
            && t.ram.cursor == (if c == max then 1 else c + 1)
            && |t.ram.index| == max + 1 && t.ram.index[c] == r.Time()
            && (forall i :: 0 <= i <= max && i != c && |s.ram.index| == max + 1 ==> t.ram.index[i] == s.ram.index[i])
            && (forall i :: 1 <= i <= max && i != c && s.ram.index == [] ==> t.ram.index[i] == 0)
            && t.disk.records
               == WriteSlot(l, s.disk.records, c,
                            Image(r.(timeOrder := r.timeOrder.(dataPosition := c))))
            && t.disk.config == Some(Stored(s.disk.config, Header(max, c, s.ram.temp), t.ram.index, false))
  {
    hide Stored, WriteSlot, Image, ValidConfig;
  }

  /** A record write that fails after some bytes leaves those bytes at the cursor's slot, and no other trace. */
  lemma DamageExactly(l: Layout, s: State, partial: Option<seq<uint8>>)
    requires s.Writable()
    ensures Damaged(l, s, partial).ram == s.ram && Damaged(l, s, partial).disk.config == s.disk.config
    ensures Damaged(l, s, partial).disk.records ==
            if partial.Some? then WriteSlot(l, s.disk.records, s.ram.cursor, partial.value) else s.disk.records
  {
    hide WriteSlot, ValidConfig;
  }

  /** A change of capacity. Out of 1..20160 it changes nothing. Growth changes the capacity and the index alone: an
      absent index is allocated with zeroes, and of an existing one the words below the old capacity stay and the new
      ones are zero. Anything else removes the record file and the index, sets the cursor to 1, and writes the new
      header. */
  lemma SetMaxExactly(s: State, capacity: uint16, junk: Junk)
    requires s.Valid()
    ensures !(1 <= capacity <= 20160) ==> SetMax(s, capacity, junk) == s
    ensures s.ram.max < capacity <= 20160 ==>
              var t := SetMax(s, capacity, junk);
              && t.disk == s.disk && t.ram.(max := s.ram.max, index := s.ram.index) == s.ram
              && t.ram.max == capacity && |t.ram.index| == capacity + 1
              && forall i :: 1 <= i <= capacity && i != s.ram.max ==>
                   t.ram.index[i] == if s.ram.index != [] && i < s.ram.max then s.ram.index[i] else 0
    ensures s.ram.max < capacity <= 20160 ==>
              SetMax(s, capacity, junk).ram.index[s.ram.max] == if s.ram.index == [] then 0 else junk(s.ram.max)
    ensures 1 <= capacity <= s.ram.max ==>
              var t := SetMax(s, capacity, junk);
              && t.ram == Ram(capacity, 1, [], s.ram.loaded, s.ram.temp) && t.disk.records.None?
              && t.disk.config == Some(Stored(s.disk.config, Header(capacity, 1, s.ram.temp), [], true))
  {
    hide Stored, ValidConfig;
  }

  /** A change of capacity cut off by a power loss: a wipe has removed the record file; nothing else is left of it. */
  lemma SetMaxCutOffExactly(s: State, capacity: uint16)
    requires s.Valid()
    ensures SetMaxCutOff(s, capacity).ram == Ram(20160, 1, [], false, 1000)
    ensures SetMaxCutOff(s, capacity).disk
            == if 1 <= capacity <= s.ram.max then Disk(None, s.disk.config) else s.disk
  {
    hide ValidConfig;
  }
}
