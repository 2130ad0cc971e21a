/** Files as byte sequences, and the open-file handle the source reads and writes through. */
module ByteFile {
  import opened Machine

  type File = seq<uint8>

  /** The file after `data` is written at `pos`; a gap past the old end reads as zeroes. */
  function WriteAt(f: File, pos: nat, data: seq<uint8>): (g: File)
    ensures |g| == if data == [] then |f| else Max(|f|, pos + |data|)
    ensures forall i :: 0 <= i < |g| ==>
              g[i] == if pos <= i < pos + |data| then data[i - pos] else if i < |f| then f[i] else 0
  {
    if data == [] then f
    else if |f| <= pos then f + Repeat(0, pos - |f|) + data
    else if |f| <= pos + |data| then f[..pos] + data
    else f[..pos] + data + f[pos + |data|..]
  }

  /** The memory `mem` after a read at `pos`: a short read leaves the rest unchanged. */
  function ReadInto(f: File, pos: nat, mem: seq<uint8>): (got: seq<uint8>)
    ensures |got| == |mem|
    ensures forall i :: 0 <= i < |mem| ==> got[i] == if pos + i < |f| then f[pos + i] else mem[i]
  {
    if |f| <= pos then mem
    else if pos + |mem| <= |f| then f[pos..pos + |mem|]
    else f[pos..] + mem[|f| - pos..]
  }

  /** Two back-to-back writes are one write of the concatenation. */
  lemma WritesJoin(f: File, pos: nat, a: seq<uint8>, b: seq<uint8>)
    ensures WriteAt(WriteAt(f, pos, a), pos + |a|, b) == WriteAt(f, pos, a + b)
  {
  }

  lemma ReadBack(f: File, pos: nat, data: seq<uint8>, mem: seq<uint8>)
    requires |mem| == |data|
    ensures ReadInto(WriteAt(f, pos, data), pos, mem) == data
  {
  }

  /** A write does not disturb bytes outside its range: reading them gives what was
      there, or zero where the write had to fill a gap. */
  lemma ReadElsewhere(f: File, pos: nat, data: seq<uint8>, at: nat, mem: seq<uint8>)
    requires at + |mem| <= pos || pos + |data| <= at
    requires at + |mem| <= |f| || forall i :: 0 <= i < |mem| ==> mem[i] == 0
    ensures ReadInto(WriteAt(f, pos, data), at, mem) == ReadInto(f, at, mem)
  {
  }

  /** The file carries the bytes `b` at position `pos`. */
  ghost predicate HasAt(f: File, pos: nat, b: seq<uint8>) {
    pos + |b| <= |f| && f[pos..pos + |b|] == b
  }

  lemma HasWritten(f: File, pos: nat, b: seq<uint8>)
    requires b != []
    ensures HasAt(WriteAt(f, pos, b), pos, b)
  {
  }

  lemma HasFrame(f: File, pos: nat, data: seq<uint8>, at: nat, b: seq<uint8>)
    requires at + |b| <= pos || pos + |data| <= at
    requires HasAt(f, at, b)
    ensures HasAt(WriteAt(f, pos, data), at, b)
  {
    var g := WriteAt(f, pos, data);
    assert forall i :: at <= i < at + |b| ==> g[i] == f[i];
  }

  lemma HasSplit(f: File, pos: nat, a: seq<uint8>, b: seq<uint8>)
    requires HasAt(f, pos, a + b)
    ensures HasAt(f, pos, a) && HasAt(f, pos + |a|, b)
  {
    var g := f[pos..pos + |a + b|];
    assert f[pos..pos + |a|] == g[..|a|] == a;
    assert f[pos + |a|..pos + |a| + |b|] == g[|a|..] == b;
  }

  lemma HasSlice(f: File, pos: nat, b: seq<uint8>, lo: nat, hi: nat)
    requires lo <= hi <= |b| && HasAt(f, pos, b)
    ensures HasAt(f, pos + lo, b[lo..hi])
  {
    var g := f[pos..pos + |b|];
    assert forall i :: lo <= i < hi ==> f[pos + i] == g[i];
    assert f[pos + lo..pos + hi] == b[lo..hi];
  }

  lemma ReadHad(f: File, pos: nat, b: seq<uint8>, mem: seq<uint8>)
    requires HasAt(f, pos, b) && |mem| == |b|
    ensures ReadInto(f, pos, mem) == b
  {
    var g := f[pos..pos + |b|];
    assert forall i :: 0 <= i < |b| ==> f[pos + i] == g[i];
  }

  /** Two positions that read alike: equal, or both at or past the end. */
  predicate SamePosition(f: File, pos: nat, at: nat) {
    pos == at || (|f| <= pos && |f| <= at)
  }

  lemma ReadAtSamePosition(f: File, pos: nat, at: nat, mem: seq<uint8>)
    requires SamePosition(f, pos, at)
    ensures ReadInto(f, pos, mem) == ReadInto(f, at, mem)
    ensures SamePosition(f, Advanced(f, pos, |mem|), at + |mem|)
  {
  }

  /** The position after a read of n bytes, which stops at the end of the file. */
  function Advanced(f: File, pos: nat, n: nat): nat {
    if pos + n <= |f| then pos + n else Max(pos, |f|)
  }

  /** An open file: contents and a seek position that every read and write advances. */
  class OpenFile {
    var bytes: File
    var pos: nat

    constructor (contents: File)
      ensures bytes == contents && pos == 0
    {
      bytes, pos := contents, 0;
    }

    method SeekSet(offset: nat)
      modifies `pos
      ensures pos == offset
    {
      pos := offset;
    }

    method SeekCur(offset: nat)
      modifies `pos
      ensures pos == old(pos) + offset
    {
      pos := pos + offset;
    }

    method Write(data: seq<uint8>)
      modifies this
      ensures bytes == WriteAt(old(bytes), old(pos), data)
      ensures pos == old(pos) + |data|
    {
      bytes := WriteAt(bytes, pos, data);
      pos := pos + |data|;
    }

    /** Overwrites `mem` with the bytes at the position, as many as the file still has. */
    method Read(mem: seq<uint8>) returns (got: seq<uint8>)
      modifies `pos
      ensures got == ReadInto(bytes, old(pos), mem)
      ensures pos == Advanced(bytes, old(pos), |mem|)
    {
      got := ReadInto(bytes, pos, mem);
      pos := Advanced(bytes, pos, |mem|);
    }
  }
}
