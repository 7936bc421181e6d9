/**
 * The run as the program performs it: a reader over the input image with a
 * read position, a header written straight to the output file, a body sent
 * through the (possibly compressing) writer, and the uncompressed-length
 * counter that every write adds to. Each step is a method; `Run`
 * performs them in order and is proved to produce exactly `Rewrite`.
 */
module Rewriter {
  import opened Wire
  import opened Rect
  import opened AddOptIn

  /** A tag as peekTag returns it: its type and every byte read for it. */
  datatype Peeked = Peeked(tagType: nat, raw: seq<byte>)

  class Rewriter {
    const input: seq<byte>
    const guardLookahead: bool
    var pos: nat
    var header: seq<byte>
    var body: seq<byte>
    var uncompressedLength: nat

    /** The counter is the number of bytes written so far, header and body. */
    ghost predicate Valid()
      reads this
    {
      pos <= |input| && uncompressedLength == |header| + |body|
    }

    constructor (input: seq<byte>, guardLookahead: bool)
      ensures Valid()
      ensures this.input == input && this.guardLookahead == guardLookahead
      ensures pos == 0 && header == [] && body == [] && uncompressedLength == 0
    {
      this.input := input;
      this.guardLookahead := guardLookahead;
      pos := 0;
      header := [];
      body := [];
      uncompressedLength := 0;
    }

    /** Reads exactly `n` bytes, or reports a short read with the reader drained. */
    method ReadFull(n: nat) returns (data: Option<seq<byte>>)
      requires Valid()
      modifies this`pos
      ensures Valid()
      ensures old(pos) + n <= |input| ==> data == Some(input[old(pos)..old(pos) + n]) && pos == old(pos) + n
      ensures old(pos) + n > |input| ==> data == None && pos == |input|
    {
      if pos + n <= |input| {
        data := Some(input[pos..pos + n]);
        pos := pos + n;
      } else {
        data := None;
        pos := |input|;
      }
    }

    /** Sends bytes through the writer and counts them. */
    method WriteBody(data: seq<byte>)
      requires Valid()
      modifies this`body, this`uncompressedLength
      ensures Valid()
      ensures body == old(body) + data && uncompressedLength == old(uncompressedLength) + |data|
    {
      body := body + data;
      uncompressedLength := uncompressedLength + |data|;
    }

    /** Writes the 8-byte header to the output file, uncompressed, and counts it. */
    method WriteHeader(swfHeader: seq<byte>)
      requires Valid() && |swfHeader| == 8
      modifies this`header, this`uncompressedLength
      ensures Valid()
      ensures header == old(header) + swfHeader && uncompressedLength == old(uncompressedLength) + 8
    {
      header := header + swfHeader;
      uncompressedLength := uncompressedLength + 8;
    }

    /** Reads one tag: its type, and the bytes read for it in the order read. */
    method PeekTag() returns (peeked: Option<Peeked>)
      requires Valid()
      modifies this`pos
      ensures Valid() && old(pos) <= pos
      ensures peeked == TagAt(input[old(pos)..])
      ensures peeked.Some? ==> pos == old(pos) + |peeked.value.raw|
    {
      var start := pos;
      var wordBytes := ReadFull(2);
      if wordBytes.None? {
        return None;
      }
      var tagCodeAndLength := LeValue(wordBytes.value);
      if ShortLengthOf(tagCodeAndLength) >= LONG_TAG_LENGTH {
        peeked := PeekLongTag(start, tagCodeAndLength);
      } else {
        PeekShortForm(input, start, tagCodeAndLength);
        var tagLength := ShortLengthOf(tagCodeAndLength);
        peeked := ReadTagData(start, TagTypeOf(tagCodeAndLength), PutLe(tagCodeAndLength, 2), tagLength);
      }
    }

    /** The rest of peekTag for a long tag: the 32-bit length, then the data. */
    method PeekLongTag(ghost start: nat, tagCodeAndLength: nat) returns (peeked: Option<Peeked>)
      requires Valid() && start + 2 == pos && tagCodeAndLength == LeValue(input[start..start + 2])
      requires ShortLengthOf(tagCodeAndLength) >= LONG_TAG_LENGTH
      modifies this`pos
      ensures Valid() && old(pos) <= pos
      ensures peeked == TagAt(input[start..])
      ensures peeked.Some? ==> pos == start + |peeked.value.raw|
    {
      var lengthBytes := ReadFull(4);
      if lengthBytes.None? {
        PeekLongFormTruncated(input, start, tagCodeAndLength);
        return None;
      }
      var longLength := LeValue(lengthBytes.value);
      PeekLongForm(input, start, tagCodeAndLength, longLength);
      var tagBuffer := PutLe(tagCodeAndLength, 2) + PutLe(longLength, 4);
      peeked := ReadTagData(start, TagTypeOf(tagCodeAndLength), tagBuffer, longLength);
    }

    /**
     * The end of peekTag: reads the `tagLength` bytes of the tag that
     * starts at `start`, whose type and header bytes have been read.
     */
    method ReadTagData(ghost start: nat, tagType: nat, tagBuffer: seq<byte>, tagLength: nat) returns (peeked: Option<Peeked>)
      requires Valid() && pos == start + |tagBuffer|
      requires pos + tagLength > |input| ==> TagAt(input[start..]).None?
      requires pos + tagLength <= |input| ==>
        TagAt(input[start..]) == Some(Peeked(tagType, tagBuffer + input[pos..pos + tagLength]))
      modifies this`pos
      ensures Valid() && old(pos) <= pos
      ensures peeked == TagAt(input[start..])
      ensures peeked.Some? ==> pos == start + |peeked.value.raw|
    {
      var tagData := ReadFull(tagLength);
      if tagData.None? {
        return None;
      }
      peeked := Some(Peeked(tagType, tagBuffer + tagData.value));
    }

    /** Emits the short-form EnableTelemetry tag: the tag word, then two zero bytes. */
    method WriteTelemetryTag()
      requires Valid()
      modifies this`body, this`uncompressedLength
      ensures Valid()
      ensures body == old(body) + TelemetryTag() && uncompressedLength == old(uncompressedLength) + 4
    {
      var tagCodeAndLength := TagWord(TAG_TELEMETRY, 2);
      WriteBody(PutLe(tagCodeAndLength, 2));
      var reservedPadding := 0;
      WriteBody(PutLe(reservedPadding, 2));
    }

    /**
     * Copies the movie header that follows the 8-byte file header: the
     * frame-size RECT, the frame rate and the frame count.
     */
    method CopyFrame() returns (ok: bool)
      requires Valid()
      modifies this`pos, this`body, this`uncompressedLength
      ensures Valid()
      ensures ok <==> old(pos) < |input| && old(pos) + FramePrefixLength(input[old(pos)]) <= |input|
      ensures ok ==> pos == old(pos) + FramePrefixLength(input[old(pos)]) && body == old(body) + input[old(pos)..pos]
    {
      var start := pos;
      ghost var before := body;
      ok := CopyRect();
      if !ok {
        return;
      }
      var rect := pos;
      ok := CopyRateAndCount();
      if ok {
        Adjacent(input, start, rect, pos);
        Associative(before, input[start..rect], input[rect..pos]);
      }
    }

    /** Copies the RECT, whose size the top five bits of its first byte give. */
    method CopyRect() returns (ok: bool)
      requires Valid()
      modifies this`pos, this`body, this`uncompressedLength
      ensures Valid()
      ensures ok <==> old(pos) < |input| && old(pos) + 1 + TrailingBytes(NBits(input[old(pos)])) <= |input|
      ensures ok ==> pos == old(pos) + 1 + TrailingBytes(NBits(input[old(pos)])) && body == old(body) + input[old(pos)..pos]
    {
      var start := pos;
      var frameSize := ReadFull(1);
      if frameSize.None? {
        return false;
      }
      assert frameSize.value[0] == input[start];
      var nBits := NBits(frameSize.value[0]);
      var numberOfBytes := TrailingBytes(nBits);
      var frameData := ReadFull(numberOfBytes);
      if frameData.None? {
        return false;
      }
      ghost var before := body;
      WriteBody(frameSize.value);
      WriteBody(frameData.value);
      Adjacent(input, start, start + 1, pos);
      Associative(before, frameSize.value, frameData.value);
      ok := true;
    }

    /** Copies the two 16-bit fields after the RECT: the frame rate and the frame count. */
    method CopyRateAndCount() returns (ok: bool)
      requires Valid()
      modifies this`pos, this`body, this`uncompressedLength
      ensures Valid()
      ensures ok <==> old(pos) + 4 <= |input|
      ensures ok ==> pos == old(pos) + 4 && body == old(body) + input[old(pos)..pos]
    {
      var start := pos;
      var frameRate := ReadFull(2);
      var frameCount := ReadFull(2);
      if frameRate.None? || frameCount.None? {
        return false;
      }
      ghost var before := body;
      WriteBody(frameRate.value);
      WriteBody(frameCount.value);
      Adjacent(input, start, start + 2, pos);
      Associative(before, frameRate.value, frameCount.value);
      ok := true;
    }

    /**
     * The whole run over a fresh reader: header, movie header, tag loop,
     * then the length patch. The result is exactly `Rewrite`.
     */
    method Run() returns (r: Result<Output>)
      requires Valid() && pos == 0 && header == [] && body == []
      modifies this`pos, this`header, this`body, this`uncompressedLength
      ensures r == Rewrite(input, guardLookahead)
    {
      var swfHeader := ReadFull(8);
      if swfHeader.None? {
        return Err(Truncated);
      }
      var compression := SelectCompression(swfHeader.value[..3]);
      assert swfHeader.value[..3] == input[..3];
      if compression.Err? {
        return Err(compression.error);
      }
      WriteHeader(swfHeader.value);
      r := RunAfterHeader(compression.value);
    }

    /** The run once the header is read and written and the writer is chosen. */
    method RunAfterHeader(compression: Compression) returns (r: Result<Output>)
      requires Valid() && pos == 8 && header == input[..8] && body == []
      requires SelectCompression(input[..3]) == Ok(compression)
      modifies this`pos, this`header, this`body, this`uncompressedLength
      ensures r == Rewrite(input, guardLookahead)
    {
      var ok := CopyFrame();
      if !ok {
        RewriteFrameTruncated(input, guardLookahead);
        return Err(Truncated);
      }
      assert header[..4] == input[..4];
      assert body == input[8..pos] && pos == 8 + FramePrefixLength(input[8]);
      RewriteParts(input, guardLookahead, compression, pos);
      r := RunTags(compression);
    }

    /** The tag loop, then the length patch: what is left of the run after the movie header. */
    method RunTags(compression: Compression) returns (r: Result<Output>)
      requires Valid() && |header| == 8
      modifies this`pos, this`header, this`body, this`uncompressedLength
      ensures r == Assemble(compression, old(header)[..4], old(body), RewriteTags(input[old(pos)..], guardLookahead))
    {
      var failure := CopyTags();
      if failure.Some? {
        return Err(failure.value);
      }
      PatchLength();
      r := Ok(Output(compression, header, body));
    }

    /** Seeks back to offset 4 of the output and writes the counter over the file length, as a uint32. */
    method PatchLength()
      requires Valid() && |header| == 8
      modifies this`header
      ensures Valid()
      ensures header == old(header)[..4] + PutLe(uncompressedLength, 4)
    {
      header := header[..4] + PutLe(uncompressedLength, 4);
    }

    /**
     * The tag loop: copies tags until End, inserting EnableTelemetry after
     * FileAttributes (after the Metadata tag that follows it, if any), and
     * stops on EnableTelemetry, SignedSwf or a truncated tag.
     */
    method CopyTags() returns (failure: Option<Error>)
      requires Valid()
      modifies this`pos, this`body, this`uncompressedLength
      ensures Valid()
      ensures var expected := RewriteTags(input[old(pos)..], guardLookahead);
        (expected.Err? ==> failure == Some(expected.error)) &&
        (expected.Ok? ==> failure == None && body == old(body) + expected.value)
    {
      ghost var before := body;
      ghost var expected := RewriteTags(input[pos..], guardLookahead);
      ghost var done: seq<byte> := [];
      ThenEmpty(expected);
      while true
        invariant Valid() && old(pos) <= pos
        invariant body == before + done
        invariant Then(done, RewriteTags(input[pos..], guardLookahead)) == expected
        decreases |input| - pos
      {
        var stop;
        ghost var written;
        stop, failure, written := CopyNextTag(done, expected);
        Associative(before, done, written);
        done := done + written;
        if stop {
          return;
        }
      }
    }

    /**
     * One pass of the tag loop: dispatches the tag at the read position.
     * `written` is what it appends to the body; `done` is what the loop
     * has written before, and `expected` the result the loop heads for.
     */
    method CopyNextTag(ghost done: seq<byte>, ghost expected: Result<seq<byte>>)
        returns (stop: bool, failure: Option<Error>, ghost written: seq<byte>)
      requires Valid()
      requires Then(done, RewriteTags(input[pos..], guardLookahead)) == expected
      modifies this`pos, this`body, this`uncompressedLength
      ensures Valid() && (failure.None? ==> body == old(body) + written)
      ensures failure.Some? ==> stop && expected == Err(failure.value)
      ensures stop && failure.None? ==> expected == Ok(done + written)
      ensures !stop ==> old(pos) < pos && failure.None?
      ensures !stop ==> Then(done + written, RewriteTags(input[pos..], guardLookahead)) == expected
    {
      var tagStart := pos;
      var peeked := PeekTag();
      LoopStep(input[tagStart..], peeked, done, guardLookahead, expected);
      if peeked.None? {
        return true, Some(Truncated), [];
      }
      var tagType, tagData := peeked.value.tagType, peeked.value.raw;
      if tagType == TAG_TELEMETRY {
        return true, Some(AlreadyEnabled), [];
      } else if tagType == TAG_SIGNED_SWF {
        return true, Some(SignedSwf), [];
      } else if tagType == TAG_FILE_ATTRIBUTES {
        Drop(input, tagStart, |tagData|);
        LoopFileAttributes(input[tagStart..], tagData, input[pos..], TagAt(input[pos..]), done, guardLookahead, expected);
        stop, failure, written := CopyFileAttributesStep(tagData, done, expected);
      } else {
        stop := tagType == TAG_END;
        CopyTagData(tagStart, tagData, stop, done, expected);
        return stop, None, tagData;
      }
    }

    /** The pass of the tag loop for End and for every tag it copies unchanged. */
    method CopyTagData(ghost tagStart: nat, tagData: seq<byte>, end: bool, ghost done: seq<byte>, ghost expected: Result<seq<byte>>)
      requires Valid() && tagStart <= pos == tagStart + |tagData|
      requires tagData == input[tagStart..pos]
      requires end ==> expected == Ok(done + tagData)
      requires !end ==> Then(done + tagData, RewriteTags(input[tagStart..][|tagData|..], guardLookahead)) == expected
      modifies this`body, this`uncompressedLength
      ensures Valid() && body == old(body) + tagData
      ensures !end ==> Then(done + tagData, RewriteTags(input[pos..], guardLookahead)) == expected
    {
      Drop(input, tagStart, |tagData|);
      WriteBody(tagData);
    }

    /**
     * The FileAttributes pass of the tag loop, in the terms of CopyNextTag;
     * what the loop heads for is given by the tag that follows.
     */
    method CopyFileAttributesStep(tagData: seq<byte>, ghost done: seq<byte>, ghost expected: Result<seq<byte>>)
        returns (stop: bool, failure: Option<Error>, ghost written: seq<byte>)
      requires Valid()
      requires TagAt(input[pos..]).None? ==> expected == Err(Truncated)
      requires TagAt(input[pos..]).Some? && guardLookahead && TagAt(input[pos..]).value.tagType == TAG_TELEMETRY ==>
        expected == Err(AlreadyEnabled)
      requires TagAt(input[pos..]).Some? && guardLookahead && TagAt(input[pos..]).value.tagType == TAG_SIGNED_SWF ==>
        expected == Err(SignedSwf)
      requires TagAt(input[pos..]).Some? && !(guardLookahead && TagAt(input[pos..]).value.tagType in {TAG_TELEMETRY, TAG_SIGNED_SWF}) ==>
        var q := TagAt(input[pos..]).value;
        Then(done + WithTelemetry(tagData, q.raw, q.tagType == TAG_META), RewriteTags(input[pos..][|q.raw|..], guardLookahead)) == expected
      modifies this`pos, this`body, this`uncompressedLength
      ensures Valid() && (failure.None? ==> body == old(body) + written)
      ensures failure.Some? ==> stop && expected == Err(failure.value)
      ensures failure.None? ==> !stop && old(pos) < pos
      ensures failure.None? ==> Then(done + written, RewriteTags(input[pos..], guardLookahead)) == expected
    {
      ghost var nextStart := pos;
      var next;
      next, failure := CopyFileAttributes(tagData);
      if failure.Some? {
        return true, failure, [];
      }
      Drop(input, nextStart, |next.value.raw|);
      written := WithTelemetry(tagData, next.value.raw, next.value.tagType == TAG_META);
      return false, None, written;
    }

    /**
     * The FileAttributes branch of the loop: writes the FileAttributes tag,
     * peeks the next tag, and writes it and EnableTelemetry in the order
     * that puts EnableTelemetry after Metadata. The peeked tag is not
     * dispatched: unless `guardLookahead` holds, nothing checks its type.
     */
    method CopyFileAttributes(tagData: seq<byte>) returns (next: Option<Peeked>, failure: Option<Error>)
      requires Valid()
      modifies this`pos, this`body, this`uncompressedLength
      ensures Valid() && next == TagAt(input[old(pos)..])
      ensures next.None? ==> failure == Some(Truncated)
      ensures next.Some? && guardLookahead && next.value.tagType == TAG_TELEMETRY ==> failure == Some(AlreadyEnabled)
      ensures next.Some? && guardLookahead && next.value.tagType == TAG_SIGNED_SWF ==> failure == Some(SignedSwf)
      ensures next.Some? && !(guardLookahead && next.value.tagType in {TAG_TELEMETRY, TAG_SIGNED_SWF}) ==> failure == None
      ensures failure.None? ==> next.Some? && pos == old(pos) + |next.value.raw|
      ensures failure.None? ==> body == old(body) + WithTelemetry(tagData, next.value.raw, next.value.tagType == TAG_META)
    {
      ghost var before := body;
      WriteBody(tagData);
      next := PeekTag();
      if next.None? {
        return next, Some(Truncated);
      }
      var nextTagType, nextTagData := next.value.tagType, next.value.raw;
      if guardLookahead && nextTagType == TAG_TELEMETRY {
        return next, Some(AlreadyEnabled);
      } else if guardLookahead && nextTagType == TAG_SIGNED_SWF {
        return next, Some(SignedSwf);
      }
      if nextTagType == TAG_META {
        WriteBody(nextTagData);
      }
      WriteTelemetryTag();
      if nextTagType != TAG_META {
        WriteBody(nextTagData);
      }
      if nextTagType == TAG_META {
        Append3(before, tagData, nextTagData, TelemetryTag());
      } else {
        Append3(before, tagData, TelemetryTag(), nextTagData);
      }
      failure := None;
    }
  }

  /** A file whose movie header is cut short is truncated. */
  lemma RewriteFrameTruncated(input: seq<byte>, guardLookahead: bool)
    requires |input| >= 8 && SelectCompression(input[..3]).Ok?
    requires !(|input| > 8 && 8 + FramePrefixLength(input[8]) <= |input|)
    ensures Rewrite(input, guardLookahead) == Err(Truncated)
  {
  }

  /** Edits one SWF image: the program's run, proved to compute `Rewrite`. */
  method RewriteFile(input: seq<byte>, guardLookahead: bool) returns (r: Result<Output>)
    ensures r == Rewrite(input, guardLookahead)
  {
    var rewriter := new Rewriter(input, guardLookahead);
    r := rewriter.Run();
  }

  /** The tag at the start of `s` as peekTag returns it, when all of it is there. */
  function TagAt(s: seq<byte>): (p: Option<Peeked>)
    ensures p.Some? ==> 2 <= |p.value.raw| <= |s|
  {
    match DecodeTag(s)
    case None => None
    case Some(t) => Some(Peeked(t.tagType, s[..TagLength(t)]))
  }

  /**
   * What peekTag reads for a tag whose short length is below 63: the word,
   * then that many bytes; the buffer is the word re-encoded and the bytes.
   */
  lemma PeekShortForm(input: seq<byte>, start: nat, word: nat)
    requires start + 2 <= |input| && word == LeValue(input[start..start + 2])
    requires ShortLengthOf(word) < LONG_TAG_LENGTH
    ensures start + 2 + ShortLengthOf(word) > |input| ==> TagAt(input[start..]).None?
    ensures start + 2 + ShortLengthOf(word) <= |input| ==>
      TagAt(input[start..]) == Some(Peeked(TagTypeOf(word), PutLe(word, 2) + input[start + 2..start + 2 + ShortLengthOf(word)]))
  {
    var s := input[start..];
    assert s[..2] == input[start..start + 2];
    PutLeOfLeValue(input[start..start + 2]);
    var n := 2 + ShortLengthOf(word);
    if start + n <= |input| {
      assert s[..n] == input[start..start + 2] + input[start + 2..start + n];
    }
  }

  /** A tag whose short length is 63 but whose 32-bit length is cut off is truncated. */
  lemma PeekLongFormTruncated(input: seq<byte>, start: nat, word: nat)
    requires start + 2 <= |input| < start + 6 && word == LeValue(input[start..start + 2])
    requires ShortLengthOf(word) >= LONG_TAG_LENGTH
    ensures TagAt(input[start..]).None?
  {
    var s := input[start..];
    assert s[..2] == input[start..start + 2];
  }

  /**
   * What peekTag reads for a tag whose short length is 63: the word, a
   * 32-bit length, then that many bytes, all of them kept in the buffer.
   */
  lemma PeekLongForm(input: seq<byte>, start: nat, word: nat, length: nat)
    requires start + 6 <= |input| && word == LeValue(input[start..start + 2])
    requires length == LeValue(input[start + 2..start + 6])
    requires ShortLengthOf(word) >= LONG_TAG_LENGTH
    ensures start + 6 + length > |input| ==> TagAt(input[start..]).None?
    ensures start + 6 + length <= |input| ==>
      TagAt(input[start..]) == Some(Peeked(TagTypeOf(word), PutLe(word, 2) + PutLe(length, 4) + input[start + 6..start + 6 + length]))
  {
    var s := input[start..];
    assert s[..2] == input[start..start + 2];
    PutLeOfLeValue(input[start..start + 2]);
    assert s[2..6] == input[start + 2..start + 6];
    PutLeOfLeValue(input[start + 2..start + 6]);
    var n := 6 + length;
    if start + n <= |input| {
      assert s[..n] == input[start..start + 2] + input[start + 2..start + 6] + input[start + 6..start + n];
    }
  }

  lemma Adjacent(s: seq<byte>, i: nat, j: nat, k: nat)
    requires i <= j <= k <= |s|
    ensures s[i..j] + s[j..k] == s[i..k]
  {
  }

  lemma Associative(a: seq<byte>, b: seq<byte>, c: seq<byte>)
    ensures a + b + c == a + (b + c)
  {
  }

  lemma Append3(a: seq<byte>, b: seq<byte>, c: seq<byte>, d: seq<byte>)
    ensures a + b + c + d == a + (b + c + d)
  {
  }

  lemma Drop(s: seq<byte>, i: nat, k: nat)
    requires i + k <= |s|
    ensures s[i..][k..] == s[i + k..]
  {
  }

  lemma ThenEmpty(r: Result<seq<byte>>)
    ensures Then([], r) == r
  {
    if r.Ok? {
      assert [] + r.value == r.value;
    }
  }

  /**
   * How the result the loop is heading for is determined by the tag `p`
   * peeked at the read position, given that `done` has been written so far.
   */
  lemma LoopStep(s: seq<byte>, p: Option<Peeked>, done: seq<byte>, guardLookahead: bool, expected: Result<seq<byte>>)
    requires p == TagAt(s)
    requires Then(done, RewriteTags(s, guardLookahead)) == expected
    ensures p.None? ==> expected == Err(Truncated)
    ensures p.Some? && p.value.tagType == TAG_TELEMETRY ==> expected == Err(AlreadyEnabled)
    ensures p.Some? && p.value.tagType == TAG_SIGNED_SWF ==> expected == Err(SignedSwf)
    ensures p.Some? && p.value.tagType == TAG_END ==> expected == Ok(done + p.value.raw)
    ensures p.Some? && p.value.tagType !in {TAG_END, TAG_FILE_ATTRIBUTES, TAG_TELEMETRY, TAG_SIGNED_SWF} ==>
      Then(done + p.value.raw, RewriteTags(s[|p.value.raw|..], guardLookahead)) == expected
  {
    if p.Some? {
      ThenThen(done, p.value.raw, RewriteTags(s[|p.value.raw|..], guardLookahead));
    }
  }

  /**
   * The same for a FileAttributes tag `raw` and the tag `q` peeked in
   * `after`, the input that follows it.
   */
  lemma LoopFileAttributes(s: seq<byte>, raw: seq<byte>, after: seq<byte>, q: Option<Peeked>, done: seq<byte>,
                           guardLookahead: bool, expected: Result<seq<byte>>)
    requires TagAt(s) == Some(Peeked(TAG_FILE_ATTRIBUTES, raw))
    requires after == s[|raw|..] && q == TagAt(after)
    requires Then(done, RewriteTags(s, guardLookahead)) == expected
    ensures q.None? ==> expected == Err(Truncated)
    ensures q.Some? && guardLookahead && q.value.tagType == TAG_TELEMETRY ==> expected == Err(AlreadyEnabled)
    ensures q.Some? && guardLookahead && q.value.tagType == TAG_SIGNED_SWF ==> expected == Err(SignedSwf)
    ensures q.Some? && !(guardLookahead && q.value.tagType in {TAG_TELEMETRY, TAG_SIGNED_SWF}) ==>
      Then(done + WithTelemetry(raw, q.value.raw, q.value.tagType == TAG_META),
           RewriteTags(after[|q.value.raw|..], guardLookahead)) == expected
  {
    if q.Some? {
      ThenThen(done, WithTelemetry(raw, q.value.raw, q.value.tagType == TAG_META),
               RewriteTags(after[|q.value.raw|..], guardLookahead));
    }
  }
}
