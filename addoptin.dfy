/**
 * What one run of add-opt-in does to an SWF file, as functions of the file's
 * uncompressed image (the 8-byte header followed by the body as the reader
 * delivers it): the signature dispatch, the copy of the RECT and frame
 * fields, the tag loop that inserts EnableTelemetry after FileAttributes
 * (and after Metadata when Metadata comes next), and the length patch.
 *
 * `guardLookahead` selects between the loop as written (false), where the
 * tag read ahead after FileAttributes is never checked for types 93 and 94,
 * and the corrected loop (true), which rejects those too.
 */
module AddOptIn {
  import opened Wire
  import opened Rect

  datatype Compression = NoCompression | Zlib

  datatype Error =
    | Truncated               // the file ends inside the header, the RECT, the frame fields or a tag
    | UnsupportedCompression  // "ZWS": LZMA bodies are not supported
    | InvalidSignature        // none of the three signatures: no reader or writer is set up
    | AlreadyEnabled          // an EnableTelemetry tag (93) is already present
    | SignedSwf               // a signed SWF (tag 94) cannot be rewritten

  datatype Result<+T> = Ok(value: T) | Err(error: Error)

  /** The file as written: its raw header, and the body that went through the writer uncompressed. */
  datatype Output = Output(compression: Compression, header: seq<byte>, body: seq<byte>)

  const FWS: seq<byte> := [0x46, 0x57, 0x53]
  const CWS: seq<byte> := [0x43, 0x57, 0x53]
  const ZWS: seq<byte> := [0x5A, 0x57, 0x53]

  /** Which reader and writer the signature selects. */
  function SelectCompression(signature: seq<byte>): (r: Result<Compression>)
    requires |signature| == 3
    ensures r == Ok(NoCompression) <==> signature == FWS
    ensures r == Ok(Zlib) <==> signature == CWS
    ensures r == Err(UnsupportedCompression) <==> signature == ZWS
    ensures r == Err(InvalidSignature) <==> signature !in {FWS, CWS, ZWS}
  {
    if signature == FWS then Ok(NoCompression)
    else if signature == CWS then Ok(Zlib)
    else if signature == ZWS then Err(UnsupportedCompression)
    else Err(InvalidSignature)
  }

  /** The body bytes before the first tag: the RECT, the frame rate and the frame count. */
  function FramePrefixLength(frameSize: byte): (n: nat)
    ensures 5 <= n <= 21
  {
    1 + TrailingBytes(NBits(frameSize)) + 2 + 2
  }

  /** The number of input bytes a decoded tag occupies. */
  function TagLength(tag: Record): (n: nat)
    ensures n >= 2
  {
    HeaderLength(tag) + |tag.payload|
  }

  /** `prefix` written before whatever `r` writes; an error stays the error. */
  function Then(prefix: seq<byte>, r: Result<seq<byte>>): Result<seq<byte>>
  {
    if r.Ok? then Ok(prefix + r.value) else r
  }

  /** Writing `a` and then `b` before `r` is writing `a + b` before it. */
  lemma ThenThen(a: seq<byte>, b: seq<byte>, r: Result<seq<byte>>)
    ensures Then(a, Then(b, r)) == Then(a + b, r)
  {
    if r.Ok? {
      assert a + (b + r.value) == (a + b) + r.value;
    }
  }

  /**
   * What the loop writes for a FileAttributes tag read as `raw` and the tag
   * it looked ahead at, read as `nextRaw`: EnableTelemetry goes after the
   * look-ahead tag when that is Metadata, and between the two otherwise.
   */
  function WithTelemetry(raw: seq<byte>, nextRaw: seq<byte>, nextIsMeta: bool): (w: seq<byte>)
    ensures |w| == |raw| + |nextRaw| + 4
  {
    if nextIsMeta then raw + nextRaw + TelemetryTag() else raw + TelemetryTag() + nextRaw
  }

  /**
   * The tag loop of main over what is left of the body: the bytes it writes
   * through the writer up to and including the End tag, or the error that
   * stops it. Every tag is copied as the exact bytes it was read from.
   */
  function RewriteTags(s: seq<byte>, guardLookahead: bool): (r: Result<seq<byte>>)
    ensures r.Err? ==> r.error in {Truncated, AlreadyEnabled, SignedSwf}
    decreases |s|
  {
    match DecodeTag(s)
    case None => Err(Truncated)
    case Some(tag) =>
      var raw, after := s[..TagLength(tag)], s[TagLength(tag)..];
      if tag.tagType == TAG_TELEMETRY then Err(AlreadyEnabled)
      else if tag.tagType == TAG_SIGNED_SWF then Err(SignedSwf)
      else if tag.tagType == TAG_FILE_ATTRIBUTES then
        match DecodeTag(after)
        case None => Err(Truncated)
        case Some(next) =>
          var nextRaw := after[..TagLength(next)];
          if guardLookahead && next.tagType == TAG_TELEMETRY then Err(AlreadyEnabled)
          else if guardLookahead && next.tagType == TAG_SIGNED_SWF then Err(SignedSwf)
          else
            Then(WithTelemetry(raw, nextRaw, next.tagType == TAG_META),
                 RewriteTags(after[TagLength(next)..], guardLookahead))
      else if tag.tagType == TAG_END then Ok(raw)
      else Then(raw, RewriteTags(after, guardLookahead))
  }

  /**
   * The whole run on a file's uncompressed image: the header and body it
   * writes, or the error that stops it. The header is the input's, with
   * the length field replaced by the uint32 the run counted.
   */
  function Rewrite(input: seq<byte>, guardLookahead: bool): (r: Result<Output>)
    ensures r.Ok? ==> |r.value.header| == 8 && |input| > 8
  {
    if |input| < 8 then Err(Truncated)
    else
      match SelectCompression(input[..3])
      case Err(e) => Err(e)
      case Ok(compression) =>
        if |input| == 8 || |input| < 8 + FramePrefixLength(input[8]) then Err(Truncated)
        else
          var tagsStart := 8 + FramePrefixLength(input[8]);
          Assemble(compression, input[..4], input[8..tagsStart], RewriteTags(input[tagsStart..], guardLookahead))
  }

  /**
   * The output once the tag loop has ended: the signature and version, the
   * patched length, then the copied frame fields and what the loop wrote.
   */
  function Assemble(compression: Compression, lead: seq<byte>, frame: seq<byte>, tags: Result<seq<byte>>): (r: Result<Output>)
    requires |lead| == 4
    ensures r.Ok? ==> |r.value.header| == 8
  {
    match tags
    case Err(e) => Err(e)
    case Ok(written) =>
      var body := frame + written;
      Ok(Output(compression, lead + PutLe(8 + |body|, 4), body))
  }

  /** A run that gets past the movie header ends as the tag loop does. */
  lemma RewriteParts(input: seq<byte>, guardLookahead: bool, compression: Compression, tagsStart: nat)
    requires |input| > 8 && SelectCompression(input[..3]) == Ok(compression)
    requires tagsStart == 8 + FramePrefixLength(input[8]) <= |input|
    ensures Rewrite(input, guardLookahead)
      == Assemble(compression, input[..4], input[8..tagsStart], RewriteTags(input[tagsStart..], guardLookahead))
  {
  }

  /** Which files the run refuses before the tag loop, and which writer it picks. */
  lemma RewriteDispatch(input: seq<byte>, guardLookahead: bool)
    ensures var r := Rewrite(input, guardLookahead);
      (|input| < 8 ==> r == Err(Truncated)) &&
      (|input| >= 8 ==>
        (r == Err(UnsupportedCompression) <==> input[..3] == ZWS) &&
        (r == Err(InvalidSignature) <==> input[..3] !in {FWS, CWS, ZWS}) &&
        (r.Ok? ==> r.value.compression == (if input[..3] == FWS then NoCompression else Zlib)))
  {
    if |input| >= 8 {
      var c := SelectCompression(input[..3]);
    }
  }

  /**
   * The written header keeps the signature and version, and its length field
   * holds the number of bytes written, header included, modulo 2^32.
   */
  lemma RewritePatchesLength(input: seq<byte>, guardLookahead: bool)
    requires Rewrite(input, guardLookahead).Ok?
    ensures var out := Rewrite(input, guardLookahead).value;
      out.header[..4] == input[..4] &&
      LeValue(out.header[4..]) == (|out.header| + |out.body|) % UINT32_LIMIT
  {
    var out := Rewrite(input, guardLookahead).value;
    assert out.header[4..] == PutLe(8 + |out.body|, 4);
    Uint32RoundTrip(8 + |out.body|);
  }

  /** The RECT, frame rate and frame count are copied before the first tag. */
  lemma RewriteCopiesFrame(input: seq<byte>, guardLookahead: bool)
    requires Rewrite(input, guardLookahead).Ok?
    ensures var n := FramePrefixLength(input[8]);
      8 + n <= |input| && n <= |Rewrite(input, guardLookahead).value.body| &&
      Rewrite(input, guardLookahead).value.body[..n] == input[8..8 + n]
  {
  }
}
