/** Machine integers as the wire sees them: bytes, 16- and 32-bit words and
    their big-endian images. */
module Bytes {
  const TWO_TO_32: int := 0x1_0000_0000

  type u8 = x: int | 0 <= x < 0x100
  type u16 = x: int | 0 <= x < 0x1_0000
  type u32 = x: int | 0 <= x < TWO_TO_32

  type Bytes = seq<u8>

  /** A reserved 32-bit field. The program never swaps it, so it stays four raw bytes. */
  type Word = b: Bytes | |b| == 4 witness [0, 0, 0, 0]

  const ZERO_WORD: Word := [0, 0, 0, 0]

  function Be16(x: u16): (b: Bytes)
    ensures |b| == 2
  {
    [x / 0x100, x % 0x100]
  }

  function Be32(x: u32): (b: Bytes)
    ensures |b| == 4
  {
    Be16(x / 0x1_0000) + Be16(x % 0x1_0000)
  }

  function FromBe16(b: Bytes): u16
    requires |b| == 2
  {
    b[0] as int * 0x100 + b[1]
  }

  function FromBe32(b: Bytes): u32
    requires |b| == 4
  {
    FromBe16(b[..2]) as int * 0x1_0000 + FromBe16(b[2..])
  }

  lemma Be16Inverse(x: u16, b: Bytes)
    requires |b| == 2
    ensures FromBe16(Be16(x)) == x
    ensures Be16(FromBe16(b)) == b
  {
    assert b == [b[0], b[1]];
  }

  lemma Be32Inverse(x: u32, b: Bytes)
    requires |b| == 4
    ensures FromBe32(Be32(x)) == x
    ensures Be32(FromBe32(b)) == b
  {
    var hi, lo := x / 0x1_0000, x % 0x1_0000;
    assert Be32(x)[..2] == Be16(hi) && Be32(x)[2..] == Be16(lo);
    Be16Inverse(hi, b[..2]);
    Be16Inverse(lo, b[2..]);
    assert b == b[..2] + b[2..];
  }

  /** The value a 64-bit size keeps when the program stores it in a uint32_t. */
  function Truncate32(n: nat): u32 {
    n % TWO_TO_32
  }

  lemma TruncateAdd(a: nat, b: nat)
    requires Truncate32(a) + b < TWO_TO_32
    ensures Truncate32(a + b) == Truncate32(a) + b
  {
    assert a + b == (a - Truncate32(a)) + (Truncate32(a) + b);
  }

  function Min(a: int, b: int): int {
    if a < b then a else b
  }

  function CeilDiv(a: nat, b: nat): nat
    requires b > 0
  {
    (a + b - 1) / b
  }

  lemma Assoc(a: Bytes, b: Bytes, c: Bytes)
    ensures (a + b) + c == a + (b + c)
  {
  }

  function Concat(chunks: seq<Bytes>): Bytes {
    if chunks == [] then [] else chunks[0] + Concat(chunks[1..])
  }

  lemma ConcatAppend(chunks: seq<Bytes>, c: Bytes)
    ensures Concat(chunks + [c]) == Concat(chunks) + c
  {
    if chunks == [] {
    } else {
      assert (chunks + [c])[1..] == chunks[1..] + [c];
      ConcatAppend(chunks[1..], c);
    }
  }
}
