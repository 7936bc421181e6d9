/**
 * Byte-level encodings used by the SWF rewriter: little-endian integers as
 * binary.Read and binary.Write handle them, the 16-bit tag word (upper ten
 * bits the tag type, lower six bits the short length) and the RECORDHEADER
 * framing of a tag in its short and long forms.
 *
 * Bytes and words are unsigned, so the source's `w >> k` is written `w / 2^k`,
 * `w & (2^k - 1)` is `w % 2^k` and `t << k | l` (with `l < 2^k`) is `t * 2^k + l`;
 * BitLevel proves that the two spellings agree on every uint16.
 */
module Wire {

  type byte = b: int | 0 <= b < 0x100
  type uint16 = w: int | 0 <= w < 0x1_0000

  datatype Option<+T> = None | Some(value: T)

  const TAG_END: nat := 0
  const TAG_FILE_ATTRIBUTES: nat := 69
  const TAG_META: nat := 77
  const TAG_TELEMETRY: nat := 93
  const TAG_SIGNED_SWF: nat := 94
  /** A short length of 63 (all six bits set) announces a uint32 length after the word. */
  const LONG_TAG_LENGTH: nat := 63
  const UINT32_LIMIT: nat := 0x1_0000_0000

  // ---------------------------------------------------------------------
  // Little-endian integers
  // ---------------------------------------------------------------------

  function Pow256(k: nat): (p: nat)
    ensures p >= 1
  {
    if k == 0 then 1 else 0x100 * Pow256(k - 1)
  }

  /** The unsigned value of little-endian bytes: least significant first. */
  function LeValue(s: seq<byte>): (n: nat)
    ensures n < Pow256(|s|)
  {
    if s == [] then 0 else s[0] as int + 0x100 * LeValue(s[1..])
  }

  /**
   * The `width` little-endian bytes an unsigned integer of that width holding
   * `n` is written as; the bits beyond the width are lost, as in a Go uint32.
   */
  function PutLe(n: nat, width: nat): (s: seq<byte>)
    ensures |s| == width
  {
    if width == 0 then [] else [n % 0x100] + PutLe(n / 0x100, width - 1)
  }

  /** Reading an integer and writing it back reproduces its bytes. */
  lemma {:induction false} PutLeOfLeValue(s: seq<byte>)
    ensures PutLe(LeValue(s), |s|) == s
  {
    if s != [] {
      PutLeOfLeValue(s[1..]);
      var n := LeValue(s);
      assert n % 0x100 == s[0] && n / 0x100 == LeValue(s[1..]);
    }
  }

  /** Writing an integer and reading it back gives it modulo 2^(8 * width). */
  lemma {:induction false} LeValueOfPutLe(n: nat, width: nat)
    ensures LeValue(PutLe(n, width)) == n % Pow256(width)
  {
    if width > 0 {
      LeValueOfPutLe(n / 0x100, width - 1);
      var s := PutLe(n, width);
      assert s[1..] == PutLe(n / 0x100, width - 1);
      ModSplit(n, Pow256(width - 1));
    }
  }

  lemma ModSplit(n: nat, p: nat)
    requires p >= 1
    ensures n % (0x100 * p) == n % 0x100 + 0x100 * ((n / 0x100) % p)
  {
    var q, r := n / 0x100, n % 0x100;
    var a, b := q / p, q % p;
    assert q == p * a + b;
    assert n == (0x100 * p) * a + (0x100 * b + r);
    assert 0 <= 0x100 * b + r < 0x100 * p;
    DivModUnique(n, 0x100 * p, a, 0x100 * b + r);
  }

  lemma DivModUnique(n: int, d: int, a: int, r: int)
    requires d > 0 && n == d * a + r && 0 <= r < d
    ensures n % d == r
  {
    assert n / d == a by {
      if n / d < a {
        assert d * (n / d) <= d * (a - 1) by { MulMono(d, n / d, a - 1); }
      } else if n / d > a {
        assert d * (a + 1) <= d * (n / d) by { MulMono(d, a + 1, n / d); }
      }
    }
  }

  lemma MulMono(d: int, x: int, y: int)
    requires d > 0 && x <= y
    ensures d * x <= d * y
  {
  }

  /** A uint32 written and read back: its value modulo 2^32. */
  lemma Uint32RoundTrip(n: nat)
    ensures LeValue(PutLe(n, 4)) == n % UINT32_LIMIT
    ensures n < UINT32_LIMIT ==> LeValue(PutLe(n, 4)) == n
  {
    LeValueOfPutLe(n, 4);
    assert Pow256(4) == UINT32_LIMIT;
  }

  // ---------------------------------------------------------------------
  // The tag word: type in the upper ten bits, short length in the lower six
  // ---------------------------------------------------------------------

  /** `word >> 6`: the tag type. */
  function TagTypeOf(word: uint16): (t: nat)
    ensures t < 1024
  {
    word / 64
  }

  /** `uint32(word) & 0x3f`: the short length field. */
  function ShortLengthOf(word: uint16): (l: nat)
    ensures l < 64
  {
    word % 64
  }

  /** `tagType << 6 | shortLength`: the one word that carries both fields. */
  function TagWord(tagType: nat, shortLength: nat): (w: uint16)
    requires tagType < 1024 && shortLength < 64
    ensures TagTypeOf(w) == tagType && ShortLengthOf(w) == shortLength
  {
    tagType * 64 + shortLength
  }

  /** Splitting a word into its two fields and joining them again gives the word back. */
  lemma TagWordOfFields(word: uint16)
    ensures TagWord(TagTypeOf(word), ShortLengthOf(word)) == word
  {
  }

  // ---------------------------------------------------------------------
  // RECORDHEADER framing
  // ---------------------------------------------------------------------

  /**
   * A tag as it sits on the wire: its type, whether its header took the long
   * form (word with short length 63, then a uint32 length) and its payload.
   * The long form may also carry a payload shorter than 63 bytes.
   */
  datatype Record = Record(tagType: nat, longForm: bool, payload: seq<byte>)

  ghost predicate ValidRecord(r: Record)
  {
    r.tagType < 1024 && |r.payload| < UINT32_LIMIT && (r.longForm || |r.payload| < LONG_TAG_LENGTH)
  }

  function HeaderLength(r: Record): nat
  {
    if r.longForm then 6 else 2
  }

  /** RECORDHEADER of a record: the tag word, then in the long form the uint32 length. */
  function RecordHeader(r: Record): (h: seq<byte>)
    requires ValidRecord(r)
    ensures |h| == HeaderLength(r)
  {
    if r.longForm then PutLe(TagWord(r.tagType, LONG_TAG_LENGTH), 2) + PutLe(|r.payload|, 4)
    else PutLe(TagWord(r.tagType, |r.payload|), 2)
  }

  /** The wire bytes of a record: its header, then the payload. */
  function EncodeRecord(r: Record): (s: seq<byte>)
    requires ValidRecord(r)
    ensures |s| == HeaderLength(r) + |r.payload|
  {
    RecordHeader(r) + r.payload
  }

  /**
   * Reads one tag from the front of `s`, as peekTag does: the word, the
   * uint32 length when the short length is 63, then that many payload bytes.
   * None when `s` ends before the tag does.
   */
  function DecodeTag(s: seq<byte>): (r: Option<Record>)
    ensures r.Some? ==> ValidRecord(r.value) && HeaderLength(r.value) + |r.value.payload| <= |s|
  {
    if |s| < 2 then None
    else
      var word := LeValue(s[..2]);
      var tagType, shortLength := TagTypeOf(word), ShortLengthOf(word);
      if shortLength >= LONG_TAG_LENGTH then
        if |s| < 6 then None
        else
          var tagLength := LeValue(s[2..6]);
          if |s| < 6 + tagLength then None
          else Some(Record(tagType, true, s[6..6 + tagLength]))
      else if |s| < 2 + shortLength then None
      else Some(Record(tagType, false, s[2..2 + shortLength]))
  }

  /**
   * The bytes a decoded tag occupies are exactly its encoding: re-emitting
   * the record reproduces the input verbatim, in whichever form it came.
   */
  lemma {:induction false} DecodedIsPrefix(s: seq<byte>)
    requires DecodeTag(s).Some?
    ensures var r := DecodeTag(s).value;
      |EncodeRecord(r)| <= |s| && s[..|EncodeRecord(r)|] == EncodeRecord(r)
  {
    var r := DecodeTag(s).value;
    var k, n := HeaderLength(r), |r.payload|;
    assert RecordHeader(r) == s[..k] by {
      DecodedHeader(s);
    }
    assert r.payload == s[k..k + n];
    assert s[..k + n] == s[..k] + s[k..k + n];
  }

  lemma {:induction false} DecodedHeader(s: seq<byte>)
    requires DecodeTag(s).Some?
    ensures RecordHeader(DecodeTag(s).value) == s[..HeaderLength(DecodeTag(s).value)]
  {
    var r := DecodeTag(s).value;
    var word := LeValue(s[..2]);
    assert PutLe(TagWord(r.tagType, ShortLengthOf(word)), 2) == s[..2] by {
      TagWordOfFields(word);
      PutLeOfLeValue(s[..2]);
    }
    if r.longForm {
      assert PutLe(|r.payload|, 4) == s[2..6] by {
        PutLeOfLeValue(s[2..6]);
      }
      assert s[..6] == s[..2] + s[2..6];
    }
  }

  /**
   * Decoding the bytes of a record, whatever follows them, gives the record
   * back: with DecodedIsPrefix, decoding and encoding are inverse.
   */
  lemma {:induction false} DecodeEncode(r: Record, rest: seq<byte>)
    requires ValidRecord(r)
    ensures DecodeTag(EncodeRecord(r) + rest) == Some(r)
  {
    var s := EncodeRecord(r) + rest;
    var k, n := HeaderLength(r), |r.payload|;
    var word := TagWord(r.tagType, if r.longForm then LONG_TAG_LENGTH else n);
    assert LeValue(s[..2]) == word by {
      assert s[..2] == RecordHeader(r)[..2] == PutLe(word, 2);
      Uint16RoundTrip(word);
    }
    if r.longForm {
      assert LeValue(s[2..6]) == n by {
        assert s[2..6] == RecordHeader(r)[2..6] == PutLe(n, 4);
        Uint32RoundTrip(n);
      }
    }
    assert s[k..k + n] == r.payload;
  }

  lemma Uint16RoundTrip(w: uint16)
    ensures LeValue(PutLe(w, 2)) == w
  {
    LeValueOfPutLe(w, 2);
  }

  // ---------------------------------------------------------------------
  // The EnableTelemetry tag
  // ---------------------------------------------------------------------

  /** EnableTelemetry without a password hash: type 93, two reserved zero bytes. */
  const TELEMETRY_RECORD := Record(TAG_TELEMETRY, false, [0, 0])

  /**
   * The bytes writeTelemetryTag emits: the short-form word `93 << 6 | 2`
   * and a zero uint16 of reserved bits.
   */
  function TelemetryTag(): (s: seq<byte>)
    ensures s == [0x42, 0x17, 0x00, 0x00]
    ensures ValidRecord(TELEMETRY_RECORD) && s == EncodeRecord(TELEMETRY_RECORD)
  {
    PutLe(TagWord(TAG_TELEMETRY, 2), 2) + PutLe(0, 2)
  }

  /** The telemetry tag reads back as type 93 with its own four bytes. */
  lemma {:induction false} TelemetryTagDecodes(rest: seq<byte>)
    ensures DecodeTag(TelemetryTag() + rest) == Some(TELEMETRY_RECORD)
  {
    DecodeEncode(TELEMETRY_RECORD, rest);
  }
}
