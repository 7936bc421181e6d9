/**
 * The RECT that opens the SWF body (the frame size): a 5-bit field nBits,
 * then four signed fields of nBits bits each, packed from the most
 * significant bit of the first byte and padded to a whole byte. The
 * rewriter never interprets the fields; it only needs the RECT's length.
 */
module Rect {
  import opened Wire

  /** `(frameSize & 0xff) >> 3`: the top five bits of the RECT's first byte. */
  function NBits(frameSize: byte): (nBits: nat)
    ensures nBits <= 31
  {
    frameSize / 8
  }

  /**
   * `numberOfBytes = (7 + nBits * 4 - 3) / 8`: how many RECT bytes follow the
   * first one. With the first byte they are the fewest whole bytes that hold
   * the 5 + 4 * nBits bits of the RECT.
   */
  function TrailingBytes(nBits: nat): (numberOfBytes: nat)
    requires nBits <= 31
    ensures numberOfBytes <= 16
    ensures 8 * numberOfBytes < 5 + 4 * nBits <= 8 * (1 + numberOfBytes)
  {
    (7 + nBits * 4 - 3) / 8
  }

  /** An empty RECT has no byte after the first; one with nBits = 8 has four. */
  lemma TrailingBytesExamples()
    ensures TrailingBytes(0) == 0
    ensures TrailingBytes(8) == 4
    ensures TrailingBytes(31) == 16
  {
  }
}
