/**
 * The raw value extractor of the SHT20 driver (src/utilities.ts,
 * extractRawValue).
 *
 * A sensor reply is three bytes: the measurement as a big-endian 16-bit word
 * whose two lowest bits are status flags, then the CRC-8 of the two data
 * bytes. The extractor rejects a reply of any other length, then a reply
 * whose check byte does not match, and otherwise returns the word with the
 * status bits cleared. The driver throws in both error cases; here they are
 * the two variants of `ProtocolError`.
 */
module RawValue {
  import Checksum

  /** Why a reply was rejected: the two exceptions extractRawValue throws. */
  datatype ProtocolError = InvalidLength | ChecksumMismatch

  datatype Result<T> = Ok(value: T) | Err(error: ProtocolError)

  /** Number of bytes in a sensor reply. */
  const ReplyLength: nat := 3

  /**
   * `((b0 << 8) | b1) & 0xfffc` as a bit pattern. JavaScript evaluates it on
   * 32 bits, but `b0 << 8` is below 2^16 and the mask clears everything
   * above bit 15, so 16 bits hold it exactly.
   */
  function MaskedWord(b0: bv8, b1: bv8): (w: bv16) {
    (((b0 as bv16) << 8) | b1 as bv16) & 0xfffc
  }

  /**
   * The raw value of two data bytes: the big-endian word with the status
   * bits cleared. It is a multiple of 4 below 2^16 and differs from the
   * word `b0 * 256 + b1` only in its two lowest bits.
   */
  function RawWord(b0: bv8, b1: bv8): (w: nat)
    ensures w <= 0xfffc && w % 4 == 0
    ensures w == b0 as int * 256 + b1 as int - b1 as int % 4
  {
    MaskedWordValue(b0, b1);
    StatusBitsCleared(b1);
    MaskedWord(b0, b1) as int
  }

  /** The masked word, read as a number: byte 0 times 256 plus byte 1 without its status bits. */
  lemma MaskedWordValue(b0: bv8, b1: bv8)
    ensures MaskedWord(b0, b1) as int == b0 as int * 256 + (b1 & 0xfc) as int
  {
    var w := MaskedWord(b0, b1);
    MaskedWordBytes(b0, b1);
    WordHalves(w);
    Widen(b0);
    Widen(b1 & 0xfc);
  }

  /** The masked word keeps byte 0 as its high byte and byte 1 without its two status bits as its low byte. */
  lemma MaskedWordBytes(b0: bv8, b1: bv8)
    ensures MaskedWord(b0, b1) >> 8 == b0 as bv16
    ensures MaskedWord(b0, b1) & 0xff == (b1 & 0xfc) as bv16
  {
  }

  /** A 16-bit word is its high byte times 256 plus its low byte. */
  lemma WordHalves(w: bv16)
    ensures w as int == (w >> 8) as int * 256 + (w & 0xff) as int
  {
  }

  lemma Widen(b: bv8)
    ensures (b as bv16) as int == b as int
  {
  }

  /** Clearing bits 0 and 1 of a byte subtracts its remainder modulo 4. */
  lemma StatusBitsCleared(b: bv8)
    ensures (b & 0xfc) as int == b as int - b as int % 4
  {
  }

  /**
   * extractRawValue: the length check comes first, so a buffer of the wrong
   * length is rejected whatever its bytes; then the checksum; only a reply
   * that passes both yields a raw value.
   */
  function ExtractRawValue(buffer: seq<bv8>): (r: Result<nat>)
    ensures |buffer| != ReplyLength ==> r == Err(InvalidLength)
    ensures |buffer| == ReplyLength && !Checksum.CrcMatches(buffer) ==> r == Err(ChecksumMismatch)
    ensures r.Ok? <==> |buffer| == ReplyLength && Checksum.CrcMatches(buffer)
    ensures r.Ok? ==> r.value <= 0xfffc && r.value % 4 == 0
    ensures r.Ok? ==> r.value == buffer[0] as int * 256 + buffer[1] as int - buffer[1] as int % 4
  {
    if |buffer| != ReplyLength then Err(InvalidLength)
    else if !Checksum.CrcMatches(buffer) then Err(ChecksumMismatch)
    else Ok(RawWord(buffer[0], buffer[1]))
  }

  /** The reply the sensor sends for a 16-bit measurement word (status bits included). */
  function Reply(word: bv16): (reply: seq<bv8>)
    ensures |reply| == ReplyLength
    ensures ((reply[0] as bv16) << 8) | reply[1] as bv16 == word
    ensures Checksum.CrcMatches(reply)
  {
    var hi, lo := (word >> 8) as bv8, (word & 0xff) as bv8;
    ReplyBytes(word);
    Checksum.UniqueCheckByte(hi, lo, Checksum.Crc8([hi, lo]));
    [hi, lo, Checksum.Crc8([hi, lo])]
  }

  /** Splitting a word into its bytes and joining them again gives the word back. */
  lemma ReplyBytes(word: bv16)
    ensures (((word >> 8) as bv8 as bv16) << 8) | (word & 0xff) as bv8 as bv16 == word
    ensures MaskedWord((word >> 8) as bv8, (word & 0xff) as bv8) == word & 0xfffc
  {
  }

  /**
   * Round trip: every well-formed reply is accepted, and the extractor
   * gives back the sensor's word with only the two status bits cleared.
   */
  lemma ExtractReply(word: bv16)
    ensures ExtractRawValue(Reply(word)) == Ok((word & 0xfffc) as int)
  {
    ReplyBytes(word);
  }

  /**
   * A reply whose check byte is anything but the CRC of its data bytes is
   * rejected: no raw value is produced for a bad checksum.
   */
  lemma BadCheckByteRejected(b0: bv8, b1: bv8, check: bv8)
    requires check != Checksum.Crc8([b0, b1])
    ensures ExtractRawValue([b0, b1, check]) == Err(ChecksumMismatch)
  {
    Checksum.UniqueCheckByte(b0, b1, check);
  }

  /**
   * Flipping any single data bit of an accepted reply turns the result into
   * a checksum error, never into a different raw value.
   */
  lemma SingleBitFlipRejected(reply: seq<bv8>, j: nat)
    requires ExtractRawValue(reply).Ok? && j < 16
    ensures ExtractRawValue(Checksum.FlipDataBit(reply, j)) == Err(ChecksumMismatch)
  {
    Checksum.SingleBitFlipDetected(reply, j);
  }

  /** The Sensirion SHT2x datasheet's sample reply 0x4E 0x85 0x6B yields 0x4E84. */
  lemma DatasheetSampleValue()
    ensures ExtractRawValue([0x4E, 0x85, 0x6B]) == Ok(0x4E84)
  {
    Checksum.DatasheetSample();
  }
}
