/**
 * The source splits and joins the tag word and the RECT's first byte with
 * shifts and masks on Go's unsigned integers; the model writes the same
 * operations as division, remainder and multiplication. These lemmas show,
 * on the machine words themselves, that the two spellings agree.
 */
module BitLevel {
  import Wire

  /** `word >> 6` and `word & 0x3f` are the tag type and short length of the model. */
  lemma ShiftAndMask(word: bv16)
    ensures (word >> 6) as int == Wire.TagTypeOf(word as int)
    ensures (word & 0x3f) as int == Wire.ShortLengthOf(word as int)
  {
    SplitValue(word);
    DivMod64(word as int, (word >> 6) as int, (word & 0x3f) as int);
  }

  lemma SplitValue(word: bv16)
    ensures word as int == (word >> 6) as int * 64 + (word & 0x3f) as int
    ensures (word & 0x3f) as int < 64
  {
  }

  lemma DivMod64(n: int, q: int, r: int)
    requires n == q * 64 + r && 0 <= r < 64
    ensures q == n / 64 && r == n % 64
  {
  }

  /** `tagType << 6 | shortLength` is the word TagWord builds. */
  lemma ShiftOr(tagType: bv16, shortLength: bv16)
    requires tagType < 1024 && shortLength < 64
    ensures ((tagType << 6) | shortLength) as int == Wire.TagWord(tagType as int, shortLength as int)
  {
    var word := (tagType << 6) | shortLength;
    Fields(tagType, shortLength);
    SplitValue(word);
  }

  lemma Fields(tagType: bv16, shortLength: bv16)
    requires tagType < 1024 && shortLength < 64
    ensures ((tagType << 6) | shortLength) >> 6 == tagType
    ensures ((tagType << 6) | shortLength) & 0x3f == shortLength
  {
  }

  /** `(frameSize & 0xff) >> 3` on a uint8 is its value divided by 8. */
  lemma RectShift(frameSize: bv8)
    ensures ((frameSize & 0xff) >> 3) as int == frameSize as int / 8
  {
  }
}
