/** Machine words of the C source, and their byte images in memory and on disk. */
module Machine {

  const TWO_TO_32 := 0x1_0000_0000

  type uint8 = n: int | 0 <= n < 0x100
  type uint16 = n: int | 0 <= n < 0x1_0000
  type uint32 = n: int | 0 <= n < 0x1_0000_0000

  datatype Option<+T> = None | Some(value: T)

  /** The source's return code. */
  datatype Result = Success | Failure

  /** Unsigned 32-bit subtraction: wraps around below zero. */
  function Minus32(a: uint32, b: uint32): uint32 {
    if b <= a then a - b else a - b + TWO_TO_32
  }

  function Distance(a: int, b: int): nat {
    if a <= b then b - a else a - b
  }

  /** n copies of x. */
  function Repeat<T>(x: T, n: nat): (r: seq<T>)
    ensures |r| == n && forall i :: 0 <= i < n ==> r[i] == x
  {
    if n == 0 then [] else Repeat(x, n - 1) + [x]
  }

  function Max(a: nat, b: nat): nat {
    if a < b then b else a
  }

  function Min(a: nat, b: nat): nat {
    if a < b then a else b
  }

  /** The value of a two-byte word, least significant byte first. */
  function Word16(b: seq<uint8>): uint16
    requires |b| == 2
  {
    b[0] as int + 0x100 * (b[1] as int)
  }

  function Word32(b: seq<uint8>): uint32
    requires |b| == 4
  {
    b[0] as int + 0x100 * (b[1] as int) + 0x1_0000 * (b[2] as int) + 0x100_0000 * (b[3] as int)
  }

  /** The memory image of a word: the bytes whose value it is. */
  function Bytes16(n: uint16): (b: seq<uint8>)
    ensures |b| == 2 && Word16(b) == n
  {
    Split16(n);
    var b: seq<uint8> :| |b| == 2 && Word16(b) == n;
    b
  }

  function Bytes32(n: uint32): (b: seq<uint8>)
    ensures |b| == 4 && Word32(b) == n
  {
    Split32(n);
    Word32Determines();
    var b: seq<uint8> :| |b| == 4 && Word32(b) == n;
    b
  }

  lemma Split16(n: uint16)
    ensures exists b: seq<uint8> :: |b| == 2 && Word16(b) == n
  {
    var b: seq<uint8> := [n % 0x100, n / 0x100];
    assert Word16(b) == n;
  }

  lemma Split32(n: uint32)
    ensures exists b: seq<uint8> :: |b| == 4 && Word32(b) == n
  {
    var h := n / 0x100;
    var g := h / 0x100;
    assert n == 0x100 * h + n % 0x100;
    assert h == 0x100 * g + h % 0x100;
    assert g == 0x100 * (g / 0x100) + g % 0x100;
    var b: seq<uint8> := [n % 0x100, h % 0x100, g % 0x100, g / 0x100];
    assert Word32(b) == n;
  }

  /** A word's value determines its bytes. */
  lemma Word32Determines()
    ensures forall b: seq<uint8>, c: seq<uint8> :: |b| == 4 && |c| == 4 && Word32(b) == Word32(c) ==> b == c
  {
    forall b: seq<uint8>, c: seq<uint8> | |b| == 4 && |c| == 4 && Word32(b) == Word32(c) ensures b == c {
      DigitsAgree(b[0], b[1], b[2], b[3], c[0], c[1], c[2], c[3]);
    }
  }

  lemma LowDigitAgrees(x: int, p: int, y: int, q: int)
    requires 0 <= x < 0x100 && 0 <= y < 0x100 && x + 0x100 * p == y + 0x100 * q
    ensures x == y && p == q
  {
  }

  lemma DigitsAgree(a0: int, a1: int, a2: int, a3: int, b0: int, b1: int, b2: int, b3: int)
    requires 0 <= a0 < 0x100 && 0 <= a1 < 0x100 && 0 <= a2 < 0x100
    requires 0 <= b0 < 0x100 && 0 <= b1 < 0x100 && 0 <= b2 < 0x100
    requires a0 + 0x100 * a1 + 0x1_0000 * a2 + 0x100_0000 * a3 == b0 + 0x100 * b1 + 0x1_0000 * b2 + 0x100_0000 * b3
    ensures a0 == b0 && a1 == b1 && a2 == b2 && a3 == b3
  {
    LowDigitAgrees(a0, a1 + 0x100 * a2 + 0x1_0000 * a3, b0, b1 + 0x100 * b2 + 0x1_0000 * b3);
    LowDigitAgrees(a1, a2 + 0x100 * a3, b1, b2 + 0x100 * b3);
    LowDigitAgrees(a2, a3, b2, b3);
  }
}
