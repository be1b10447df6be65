/**
 * Machine words of the Cortex-M target: the byte (uint8_t), the 32-bit word (uint32_t)
 * and the little-endian layout in which the bootloader reads 32-bit fields out of a
 * command frame and writes 16-bit values onto the serial line.
 */
module Bytes {

  /** uint8_t */
  type byte = b: int | 0 <= b < 0x100

  /** uint32_t; arithmetic on it wraps modulo WORD_RANGE where the source relies on it */
  type u32 = w: int | 0 <= w < 0x1_0000_0000

  const WORD_RANGE: int := 0x1_0000_0000

  /** The little-endian 32-bit word stored in s[off..off+4] (a `*(uint32_t*)` load). */
  function LoadU32(s: seq<byte>, off: nat): (w: u32)
    requires off + 4 <= |s|
  {
    s[off] as int + 0x100 * (s[off + 1] as int + 0x100 * (s[off + 2] as int + 0x100 * s[off + 3] as int))
  }

  /** The four bytes of w, least significant first. */
  function StoreU32(w: u32): (s: seq<byte>)
    ensures |s| == 4
  {
    var q0 := w / 0x100;
    var q1 := q0 / 0x100;
    [w % 0x100, q0 % 0x100, q1 % 0x100, q1 / 0x100]
  }

  /** A value split as a low byte and a high part divides back into those two parts. */
  lemma SplitByte(x: int, lo: int, hi: int)
    requires 0 <= lo < 0x100 && x == lo + 0x100 * hi
    ensures x % 0x100 == lo && x / 0x100 == hi
  {
  }

  /** Storing a word and loading it back gives the word. */
  lemma LoadStoreU32(w: u32)
    ensures LoadU32(StoreU32(w), 0) == w
  {
  }

  /** Loading four bytes and storing the word again gives the same four bytes. */
  lemma StoreLoadU32(s: seq<byte>, off: nat)
    requires off + 4 <= |s|
    ensures StoreU32(LoadU32(s, off)) == s[off..off + 4]
  {
    var b0, b1, b2, b3 := s[off] as int, s[off + 1] as int, s[off + 2] as int, s[off + 3] as int;
    var h1 := b2 + 0x100 * b3;
    var h0 := b1 + 0x100 * h1;
    SplitByte(LoadU32(s, off), b0, h0);
    SplitByte(h0, b1, h1);
    SplitByte(h1, b2, b3);
  }
}
