/**
 * The checksum validator of the SHT20 driver (src/utilities.ts, validateCRC).
 *
 * The sensor appends to its two data bytes a CRC-8 check byte: polynomial
 * 0x31 (x^8 + x^5 + x^4 + 1), initial value 0, most significant bit first,
 * no reflection, no final XOR, as in the Sensirion SHT2x datasheet.
 *
 * The driver keeps its register in a JavaScript number and never masks it
 * while shifting; only the final comparison keeps the low eight bits.
 * JavaScript's `^`, `&` and `<<` act on the 32-bit two's-complement pattern
 * of their operands, so the register is modelled exactly as a `bv32`.
 *
 * The reference definition `Crc8` is the textbook CRC with a true 8-bit
 * register; `ValidateCrc` is proved to agree with it.
 */
module Checksum {

  /** The generator polynomial x^8 + x^5 + x^4 + 1 without its x^8 term. */
  const Polynomial: bv8 := 0x31

  /** One shift of a true 8-bit CRC register. */
  function Shift8(r: bv8): (s: bv8) {
    if r & 0x80 != 0 then (r << 1) ^ Polynomial else r << 1
  }

  /** `n` shifts of the 8-bit register. */
  function Shifts8(r: bv8, n: nat): (s: bv8)
    decreases n
  {
    if n == 0 then r else Shifts8(Shift8(r), n - 1)
  }

  /** The register shifts once per bit of a data byte. */
  const BitsPerByte: nat := 8

  /** Feeding one data byte into the 8-bit register. */
  function FeedByte(r: bv8, b: bv8): (s: bv8) {
    Shifts8(r ^ b, BitsPerByte)
  }

  /** The reference CRC-8 of a message, with an 8-bit register starting at 0. */
  function Crc8(data: seq<bv8>): (c: bv8)
    decreases |data|
  {
    if data == [] then 0 else FeedByte(Crc8(data[..|data| - 1]), data[|data| - 1])
  }

  /**
   * What validateCRC accepts: a check byte at index 2 equal to the CRC of
   * bytes 0 and 1. A buffer shorter than three bytes has no check byte
   * (reading index 2 gives `undefined`, which equals no number).
   */
  predicate CrcMatches(buffer: seq<bv8>) {
    |buffer| >= 3 && Crc8(buffer[..2]) == buffer[2]
  }

  /** The low eight bits of the driver's register, `crc & 0xff`. */
  function LowByte(crc: bv32): (b: bv8) {
    (crc & 0xff) as bv8
  }

  /** `crc ^= byte` feeds the byte into the low eight bits and nowhere else below them. */
  lemma XorByteLowByte(crc: bv32, b: bv8)
    ensures LowByte(crc ^ b as bv32) == LowByte(crc) ^ b
  {
  }

  /**
   * The driver's unmasked step `crc & 0x80 ? (crc << 1) ^ 0x31 : crc << 1`
   * agrees on its low eight bits with one more shift of the 8-bit register:
   * the tested bit 7 and the bits that reach positions 0 to 7 all come from
   * the low byte.
   */
  lemma UnmaskedShiftLowByte(crc: bv32, fed: bv8, i: nat)
    requires LowByte(crc) == Shifts8(fed, i)
    ensures LowByte(if crc & 0x80 != 0 then (crc << 1) ^ 0x31 else crc << 1) == Shifts8(fed, i + 1)
  {
    ShiftsSplit(fed, i);
  }

  /** Doing one more shift after `n` shifts is doing `n + 1` shifts. */
  lemma {:induction false} ShiftsSplit(r: bv8, n: nat)
    ensures Shifts8(r, n + 1) == Shift8(Shifts8(r, n))
    decreases n
  {
    if n > 0 {
      ShiftsSplit(Shift8(r), n - 1);
    }
  }

  /** Eight shifts of the register after `crc ^= data[k]` give the CRC of one more byte. */
  lemma Crc8Prefix(data: seq<bv8>, k: nat, fed: bv8)
    requires k < |data| && fed == Crc8(data[..k]) ^ data[k]
    ensures Shifts8(fed, BitsPerByte) == Crc8(data[..k + 1])
  {
    assert data[..k + 1][..k] == data[..k];
  }

  /**
   * The driver's validateCRC: a nested loop over the first two bytes and
   * eight bit steps on an unmasked register, then a comparison of its low
   * byte with byte 2. It accepts exactly the buffers whose byte 2 is the
   * 8-bit-register CRC of bytes 0 and 1, so masking only at the end is the
   * same as masking after every step.
   */
  method ValidateCrc(buffer: seq<bv8>) returns (ok: bool)
    ensures ok == CrcMatches(buffer)
  {
    var crc: bv32 := 0;
    // buffer.subarray(0, 2) holds at most two bytes
    var data := if |buffer| < 2 then buffer else buffer[..2];
    for k := 0 to |data|
      invariant LowByte(crc) == Crc8(data[..k])
    {
      XorByteLowByte(crc, data[k]);
      crc := crc ^ data[k] as bv32;
      ghost var fed := LowByte(crc);
      for i := 0 to 8
        invariant LowByte(crc) == Shifts8(fed, i)
      {
        UnmaskedShiftLowByte(crc, fed, i);
        crc := if crc & 0x80 != 0 then (crc << 1) ^ 0x31 else crc << 1;
      }
      Crc8Prefix(data, k, fed);
    }
    assert data[..|data|] == data;
    ok := |buffer| >= 3 && LowByte(crc) == buffer[2];
  }

  /** For each pair of data bytes there is exactly one check byte that validateCRC accepts. */
  lemma UniqueCheckByte(b0: bv8, b1: bv8, check: bv8)
    ensures CrcMatches([b0, b1, check]) <==> check == Crc8([b0, b1])
    ensures CrcMatches([b0, b1, Crc8([b0, b1])])
  {
    assert [b0, b1, check][..2] == [b0, b1];
    assert [b0, b1, Crc8([b0, b1])][..2] == [b0, b1];
  }

  /** Only bytes 0 to 2 matter: bytes after the check byte are never read. */
  lemma TrailingBytesIgnored(buffer: seq<bv8>, extra: seq<bv8>)
    requires |buffer| >= 3
    ensures CrcMatches(buffer + extra) == CrcMatches(buffer)
  {
    assert (buffer + extra)[..2] == buffer[..2];
  }

  /** The Sensirion SHT2x datasheet's sample: the checksum of 0x4E85 is 0x6B. */
  lemma DatasheetSample()
    ensures Crc8([0x4E, 0x85]) == 0x6B
    ensures CrcMatches([0x4E, 0x85, 0x6B])
  {
    assert [0x4E as bv8, 0x85][..1] == [0x4E];
    assert [0x4E as bv8][..0] == [];
    assert [0x4E as bv8, 0x85, 0x6B][..2] == [0x4E, 0x85];
  }

  // ---------------------------------------------------------------------------
  // Error detection

  /** The CRC of two data bytes, as the two byte feeds it consists of. */
  lemma Crc8Pair(b0: bv8, b1: bv8)
    ensures Crc8([b0, b1]) == FeedByte(FeedByte(0, b0), b1)
  {
    assert [b0, b1][..1] == [b0];
    assert [b0][..0] == [];
    assert Crc8([b0]) == FeedByte(0, b0);
  }

  /**
   * Because the polynomial's constant term is 1, the bit shifted out of the
   * register reappears as bit 0: a shift loses no information.
   */
  lemma Shift8Injective(x: bv8, y: bv8)
    ensures Shift8(x) == Shift8(y) ==> x == y
  {
  }

  lemma {:induction false} Shifts8Injective(x: bv8, y: bv8, n: nat)
    ensures Shifts8(x, n) == Shifts8(y, n) ==> x == y
    decreases n
  {
    if n > 0 {
      Shifts8Injective(Shift8(x), Shift8(y), n - 1);
      Shift8Injective(x, y);
    }
  }

  /** With the register fixed, distinct bytes leave distinct registers, and vice versa. */
  lemma FeedByteInjective(r: bv8, s: bv8, b: bv8, c: bv8)
    requires r == s || b == c
    ensures FeedByte(r, b) == FeedByte(s, c) ==> r == s && b == c
  {
    if FeedByte(r, b) == FeedByte(s, c) {
      Shifts8Injective(r ^ b, s ^ c, BitsPerByte);
      XorCancel(r, s, b, c);
    }
  }

  lemma XorCancel(r: bv8, s: bv8, b: bv8, c: bv8)
    requires r ^ b == s ^ c
    ensures r == s <==> b == c
  {
  }

  /** Changing exactly one of the two data bytes changes their CRC. */
  lemma Crc8PairSingleByteChange(a0: bv8, a1: bv8, c0: bv8, c1: bv8)
    requires (c0 == a0) != (c1 == a1)
    ensures Crc8([c0, c1]) != Crc8([a0, a1])
  {
    Crc8Pair(a0, a1);
    Crc8Pair(c0, c1);
    FeedByteInjective(0, 0, a0, c0);
    FeedByteInjective(FeedByte(0, a0), FeedByte(0, c0), a1, c1);
  }

  /** What CrcMatches reads of the buffer: bytes 0, 1 and 2. */
  lemma CrcMatchesBytes(buffer: seq<bv8>)
    requires |buffer| >= 3
    ensures CrcMatches(buffer) <==> Crc8([buffer[0], buffer[1]]) == buffer[2]
  {
    assert buffer[..2] == [buffer[0], buffer[1]];
  }

  /**
   * Any corruption confined to one data byte of an accepted buffer makes
   * validateCRC reject it.
   */
  lemma SingleByteCorruptionDetected(buffer: seq<bv8>, corrupted: seq<bv8>)
    requires CrcMatches(buffer)
    requires |corrupted| == |buffer| && corrupted[2] == buffer[2]
    requires (corrupted[0] == buffer[0]) != (corrupted[1] == buffer[1])
    ensures !CrcMatches(corrupted)
  {
    CrcMatchesBytes(buffer);
    CrcMatchesBytes(corrupted);
    Crc8PairSingleByteChange(buffer[0], buffer[1], corrupted[0], corrupted[1]);
  }

  /** Bit `j` (0 = least significant) of the 16-bit data word: byte 1 holds bits 0-7, byte 0 bits 8-15. */
  function FlipDataBit(buffer: seq<bv8>, j: nat): (r: seq<bv8>)
    requires |buffer| >= 3 && j < 16
    ensures |r| == |buffer| && r[2..] == buffer[2..]
    ensures j < 8 ==> r[0] == buffer[0] && r[1] != buffer[1]
    ensures j >= 8 ==> r[0] != buffer[0] && r[1] == buffer[1]
  {
    if j < 8 then buffer[1 := buffer[1] ^ ((1 as bv8) << j)]
    else buffer[0 := buffer[0] ^ ((1 as bv8) << (j - 8))]
  }

  /** Flipping any single bit of byte 0 or byte 1 of an accepted buffer makes validateCRC reject it. */
  lemma SingleBitFlipDetected(buffer: seq<bv8>, j: nat)
    requires CrcMatches(buffer) && j < 16
    ensures !CrcMatches(FlipDataBit(buffer, j))
  {
    var r := FlipDataBit(buffer, j);
    assert r[2] == r[2..][0];
    SingleByteCorruptionDetected(buffer, r);
  }
}
