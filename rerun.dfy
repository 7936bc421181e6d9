/**
 * Running the tool on its own output. The tool is meant to refuse a file
 * that already has EnableTelemetry. As written, it does not when the tag
 * after FileAttributes is not Metadata: the EnableTelemetry tag it put
 * there is the one the loop looks ahead at, and that tag is never
 * checked. With the look-ahead guarded, a second run rejects the output
 * or reproduces it exactly.
 */
module Rerun {
  import opened Wire
  import opened AddOptIn
  import opened TagStream

  /** The raw bytes of a decoded tag decode to the same tag, whatever follows them. */
  lemma DecodeRaw(s: seq<byte>, t: Record, rest: seq<byte>)
    requires DecodeTag(s) == Some(t)
    ensures TagLength(t) <= |s| && s[..TagLength(t)] == EncodeRecord(t)
    ensures DecodeTag(s[..TagLength(t)] + rest) == Some(t)
  {
    DecodedIsPrefix(s);
    DecodeEncode(t, rest);
  }

  /** Any run over FileAttributes, a plain record and then no FileAttributes inserts one tag. */
  lemma InsertsOnce(fa: Record, next: Record, more: seq<Record>, last: Record, guardLookahead: bool)
    requires ValidRecord(fa) && ValidRecord(next) && AllValid(more) && ValidRecord(last)
    requires fa.tagType == TAG_FILE_ATTRIBUTES && last.tagType == TAG_END
    requires next.tagType !in {TAG_END, TAG_FILE_ATTRIBUTES, TAG_META, TAG_TELEMETRY, TAG_SIGNED_SWF}
    requires Dispatchable(more, guardLookahead)
    requires forall i | 0 <= i < |more| :: more[i].tagType != TAG_FILE_ATTRIBUTES
    ensures var input := [fa, next] + more + [last];
      var once := [fa, TELEMETRY_RECORD, next] + more + [last];
      AllValid(input) && AllValid(once) &&
      RewriteTags(EncodeAll(input), guardLookahead) == Ok(EncodeAll(once))
  {
    var tags := [fa, next] + more;
    assert tags[2..] == more;
    assert Dispatchable(tags, guardLookahead);
    NoFileAttributesUnchanged(more);
    assert ValidRecord(TELEMETRY_RECORD);
    assert InsertTelemetry(tags) == [fa, TELEMETRY_RECORD, next] + more;
    StreamStops(tags, last, [], guardLookahead);
    assert EncodeAll(tags + [last]) + [] == EncodeAll(tags + [last]);
  }

  /** As written, the run over that output looks ahead at the inserted tag and inserts another. */
  lemma UnguardedInsertsAgain(fa: Record, next: Record, more: seq<Record>, last: Record)
    requires ValidRecord(fa) && ValidRecord(next) && AllValid(more) && ValidRecord(last)
    requires fa.tagType == TAG_FILE_ATTRIBUTES && last.tagType == TAG_END
    requires next.tagType !in {TAG_END, TAG_FILE_ATTRIBUTES, TAG_META, TAG_TELEMETRY, TAG_SIGNED_SWF}
    requires Dispatchable(more, false)
    requires forall i | 0 <= i < |more| :: more[i].tagType != TAG_FILE_ATTRIBUTES
    ensures var once := [fa, TELEMETRY_RECORD, next] + more + [last];
      var twice := [fa, TELEMETRY_RECORD, TELEMETRY_RECORD, next] + more + [last];
      AllValid(once) && AllValid(twice) &&
      RewriteTags(EncodeAll(once), false) == Ok(EncodeAll(twice))
  {
    var t := TELEMETRY_RECORD;
    var tail := [next] + more + [last];
    PlainTailCopied(next, more, last);
    SecondTelemetryCopied(fa, tail);
    PrependShape(fa, t, next, more, last);
  }

  /** A body with no FileAttributes, ending in End, is copied as it is. */
  lemma PlainTailCopied(next: Record, more: seq<Record>, last: Record)
    requires ValidRecord(next) && AllValid(more) && ValidRecord(last) && last.tagType == TAG_END
    requires next.tagType !in {TAG_END, TAG_FILE_ATTRIBUTES, TAG_TELEMETRY, TAG_SIGNED_SWF}
    requires Dispatchable(more, false)
    requires forall i | 0 <= i < |more| :: more[i].tagType != TAG_FILE_ATTRIBUTES
    ensures var tail := [next] + more + [last];
      AllValid(tail) && RewriteTags(EncodeAll(tail), false) == Ok(EncodeAll(tail))
  {
    var body := [next] + more;
    PlainBody(next, more);
    NoFileAttributesUnchanged(body);
    StreamStops(body, last, [], false);
    assert EncodeAll(body + [last]) + [] == EncodeAll(body + [last]);
  }

  lemma PlainBody(next: Record, more: seq<Record>)
    requires ValidRecord(next) && AllValid(more)
    requires next.tagType !in {TAG_END, TAG_FILE_ATTRIBUTES, TAG_TELEMETRY, TAG_SIGNED_SWF}
    requires Dispatchable(more, false)
    requires forall i | 0 <= i < |more| :: more[i].tagType != TAG_FILE_ATTRIBUTES
    ensures var body := [next] + more;
      Dispatchable(body, false) && AllValid(body) &&
      forall i | 0 <= i < |body| :: body[i].tagType != TAG_FILE_ATTRIBUTES
  {
    var body := [next] + more;
    assert body[1..] == more;
    forall i | 0 <= i < |body|
      ensures ValidRecord(body[i]) && body[i].tagType != TAG_FILE_ATTRIBUTES
    {
      if i > 0 {
        assert body[i] == more[i - 1];
      }
    }
  }

  lemma PrependShape(fa: Record, t: Record, next: Record, more: seq<Record>, last: Record)
    ensures [fa, t] + ([next] + more + [last]) == [fa, t, next] + more + [last]
    ensures [fa, t, t] + ([next] + more + [last]) == [fa, t, t, next] + more + [last]
  {
  }

  lemma SecondTelemetryCopied(fa: Record, tail: seq<Record>)
    requires ValidRecord(fa) && fa.tagType == TAG_FILE_ATTRIBUTES && AllValid(tail)
    requires RewriteTags(EncodeAll(tail), false) == Ok(EncodeAll(tail))
    ensures AllValid([fa, TELEMETRY_RECORD] + tail) && AllValid([fa, TELEMETRY_RECORD, TELEMETRY_RECORD] + tail)
    ensures RewriteTags(EncodeAll([fa, TELEMETRY_RECORD] + tail), false)
      == Ok(EncodeAll([fa, TELEMETRY_RECORD, TELEMETRY_RECORD] + tail))
  {
    var t := TELEMETRY_RECORD;
    assert ValidRecord(t);
    var rest := EncodeAll(tail);
    EncodeAllAppend([fa, t], tail);
    EncodeAllAppend([fa, t, t], tail);
    var three := EncodeThree(fa, t, t);
    assert EncodeAll([fa, t]) == EncodeRecord(fa) + EncodeRecord(t) by {
      assert [fa, t][1..] == [t] && [t][1..] == [];
    }
    LookaheadAtTelemetry(fa, rest);
    assert EncodeAll([fa, t] + tail) == EncodeRecord(fa) + (TelemetryTag() + rest);
  }

  /** As written, an EnableTelemetry tag right after FileAttributes is copied, not refused. */
  lemma LookaheadAtTelemetry(fa: Record, rest: seq<byte>)
    requires ValidRecord(fa) && fa.tagType == TAG_FILE_ATTRIBUTES
    requires RewriteTags(rest, false).Ok?
    ensures RewriteTags(EncodeRecord(fa) + (TelemetryTag() + rest), false)
      == Ok(EncodeRecord(fa) + TelemetryTag() + TelemetryTag() + RewriteTags(rest, false).value)
  {
    assert ValidRecord(TELEMETRY_RECORD);
    FileAttributesStep(fa, TELEMETRY_RECORD, rest, false);
  }

  /**
   * As written: FileAttributes, a plain record, and a body without further
   * FileAttributes. The first run inserts one EnableTelemetry tag; a second
   * run over its output inserts a second one instead of refusing.
   */
  lemma UnguardedRerunInsertsTwice(fa: Record, next: Record, more: seq<Record>, last: Record)
    requires ValidRecord(fa) && ValidRecord(next) && AllValid(more) && ValidRecord(last)
    requires fa.tagType == TAG_FILE_ATTRIBUTES && last.tagType == TAG_END
    requires next.tagType !in {TAG_END, TAG_FILE_ATTRIBUTES, TAG_META, TAG_TELEMETRY, TAG_SIGNED_SWF}
    requires Dispatchable(more, false)
    requires forall i | 0 <= i < |more| :: more[i].tagType != TAG_FILE_ATTRIBUTES
    ensures var input := [fa, next] + more + [last];
      var once := [fa, TELEMETRY_RECORD, next] + more + [last];
      var twice := [fa, TELEMETRY_RECORD, TELEMETRY_RECORD, next] + more + [last];
      AllValid(input) && AllValid(once) && AllValid(twice) &&
      RewriteTags(EncodeAll(input), false) == Ok(EncodeAll(once)) &&
      RewriteTags(EncodeAll(once), false) == Ok(EncodeAll(twice))
  {
    InsertsOnce(fa, next, more, last, false);
    UnguardedInsertsAgain(fa, next, more, last);
  }

  /**
   * With the look-ahead guarded, FileAttributes followed by what the loop
   * wrote for it is rejected: the EnableTelemetry tag is either the
   * look-ahead tag or the next tag dispatched.
   */
  lemma GuardedRejectsInserted(fa: Record, next: Record, tail: seq<byte>)
    requires ValidRecord(fa) && ValidRecord(next)
    requires fa.tagType == TAG_FILE_ATTRIBUTES && next.tagType !in {TAG_TELEMETRY, TAG_SIGNED_SWF}
    ensures RewriteTags(WithTelemetry(EncodeRecord(fa), EncodeRecord(next), next.tagType == TAG_META) + tail, true)
      == Err(AlreadyEnabled)
  {
    if next.tagType == TAG_META {
      MetaThenTelemetryRejected(fa, next, tail);
    } else {
      TelemetryLookaheadRejected(fa, next, tail);
    }
  }

  lemma MetaThenTelemetryRejected(fa: Record, meta: Record, tail: seq<byte>)
    requires ValidRecord(fa) && ValidRecord(meta)
    requires fa.tagType == TAG_FILE_ATTRIBUTES && meta.tagType == TAG_META
    ensures RewriteTags(WithTelemetry(EncodeRecord(fa), EncodeRecord(meta), true) + tail, true) == Err(AlreadyEnabled)
  {
    var telemetry := TelemetryTag();
    assert WithTelemetry(EncodeRecord(fa), EncodeRecord(meta), true) + tail
      == EncodeRecord(fa) + (EncodeRecord(meta) + (telemetry + tail));
    FileAttributesStep(fa, meta, telemetry + tail, true);
    assert RewriteTags(telemetry + tail, true) == Err(AlreadyEnabled) by {
      TelemetryTagDecodes(tail);
    }
  }

  lemma TelemetryLookaheadRejected(fa: Record, next: Record, tail: seq<byte>)
    requires ValidRecord(fa) && ValidRecord(next) && fa.tagType == TAG_FILE_ATTRIBUTES
    ensures RewriteTags(WithTelemetry(EncodeRecord(fa), EncodeRecord(next), false) + tail, true) == Err(AlreadyEnabled)
  {
    var rest := EncodeRecord(next) + tail;
    assert WithTelemetry(EncodeRecord(fa), EncodeRecord(next), false) + tail
      == EncodeRecord(fa) + (TelemetryTag() + rest);
    ReadRecord(fa, TelemetryTag() + rest);
    TelemetryTagDecodes(rest);
  }

  /**
   * Corrected: with the look-ahead guarded, a second run over the bytes the
   * loop wrote either rejects them as already enabled or writes them again
   * unchanged.
   */
  lemma {:induction false} GuardedRerunTags(s: seq<byte>)
    requires RewriteTags(s, true).Ok?
    ensures var out := RewriteTags(s, true).value;
      RewriteTags(out, true) == Err(AlreadyEnabled) || RewriteTags(out, true) == Ok(out)
    decreases |s|
  {
    var tag := DecodeTag(s).value;
    var raw, after := s[..TagLength(tag)], s[TagLength(tag)..];
    var out := RewriteTags(s, true).value;
    if tag.tagType == TAG_FILE_ATTRIBUTES {
      GuardedRerunFileAttributes(s);
    } else if tag.tagType == TAG_END {
      DecodeRaw(s, tag, []);
      assert raw + [] == raw == out;
    } else {
      var afterOut := RewriteTags(after, true).value;
      GuardedRerunTags(after);
      DecodeRaw(s, tag, afterOut);
      assert out == raw + afterOut;
      assert (raw + afterOut)[TagLength(tag)..] == afterOut;
    }
  }

  lemma GuardedRerunFileAttributes(s: seq<byte>)
    requires RewriteTags(s, true).Ok?
    requires DecodeTag(s).Some? && DecodeTag(s).value.tagType == TAG_FILE_ATTRIBUTES
    ensures RewriteTags(RewriteTags(s, true).value, true) == Err(AlreadyEnabled)
  {
    var tag := DecodeTag(s).value;
    var after := s[TagLength(tag)..];
    var next := DecodeTag(after).value;
    var more := after[TagLength(next)..];
    var moreOut := RewriteTags(more, true).value;
    DecodeRaw(s, tag, []);
    DecodeRaw(after, next, []);
    assert RewriteTags(s, true).value
      == WithTelemetry(EncodeRecord(tag), EncodeRecord(next), next.tagType == TAG_META) + moreOut;
    GuardedRejectsInserted(tag, next, moreOut);
  }

  /**
   * Corrected, for the whole file: a second run over the header and body
   * the first run wrote rejects them, or writes exactly the same file.
   */
  lemma GuardedRerun(input: seq<byte>)
    requires Rewrite(input, true).Ok?
    ensures var out := Rewrite(input, true).value;
      var second := Rewrite(out.header + out.body, true);
      second == Err(AlreadyEnabled) || second == Rewrite(input, true)
  {
    var out := Rewrite(input, true).value;
    var start := 8 + FramePrefixLength(input[8]);
    var c := SelectCompression(input[..3]).value;
    var tags := RewriteTags(input[start..], true);
    FirstRun(input, true);
    SecondRun(input, true, c, out.header, out.body, tags.value);
    GuardedRerunTags(input[start..]);
    AssembleAgain(c, input[..4], input[8..start], tags, RewriteTags(tags.value, true));
  }

  /** What the first run writes, part by part. */
  lemma FirstRun(input: seq<byte>, guardLookahead: bool)
    requires Rewrite(input, guardLookahead).Ok?
    ensures |input| > 8 && SelectCompression(input[..3]).Ok? && 8 + FramePrefixLength(input[8]) <= |input|
    ensures var start := 8 + FramePrefixLength(input[8]);
      var tags := RewriteTags(input[start..], guardLookahead);
      var out := Rewrite(input, guardLookahead).value;
      tags.Ok? &&
      Rewrite(input, guardLookahead) == Assemble(SelectCompression(input[..3]).value, input[..4], input[8..start], tags) &&
      out.header[..4] == input[..4] && out.body == input[8..start] + tags.value
  {
    RewriteParts(input, guardLookahead, SelectCompression(input[..3]).value, 8 + FramePrefixLength(input[8]));
  }

  /** What a second run over that output reads: the same lead, frame fields and tag stream. */
  lemma SecondRun(input: seq<byte>, guardLookahead: bool, c: Compression, header: seq<byte>, body: seq<byte>, tags: seq<byte>)
    requires |input| > 8 && SelectCompression(input[..3]) == Ok(c) && 8 + FramePrefixLength(input[8]) <= |input|
    requires |header| == 8 && header[..4] == input[..4]
    requires body == input[8..8 + FramePrefixLength(input[8])] + tags
    ensures var start := 8 + FramePrefixLength(input[8]);
      Rewrite(header + body, guardLookahead) == Assemble(c, input[..4], input[8..start], RewriteTags(tags, guardLookahead))
  {
    var image := header + body;
    var start := 8 + FramePrefixLength(input[8]);
    OutputImage(input, header, body, tags);
    RewriteParts(image, guardLookahead, c, start);
  }

  lemma AssembleAgain(c: Compression, lead: seq<byte>, frame: seq<byte>, tags: Result<seq<byte>>, again: Result<seq<byte>>)
    requires |lead| == 4 && tags.Ok?
    requires again == Err(AlreadyEnabled) || again == tags
    ensures var second := Assemble(c, lead, frame, again);
      second == Err(AlreadyEnabled) || second == Assemble(c, lead, frame, tags)
  {
  }

  /** The parts of the image a run writes that a second run reads again. */
  lemma OutputImage(input: seq<byte>, header: seq<byte>, body: seq<byte>, tags: seq<byte>)
    requires |input| > 8 && 8 + FramePrefixLength(input[8]) <= |input|
    requires |header| == 8 && header[..4] == input[..4]
    requires body == input[8..8 + FramePrefixLength(input[8])] + tags
    ensures var image := header + body;
      var start := 8 + FramePrefixLength(input[8]);
      |image| > 8 && image[..3] == input[..3] && image[..4] == input[..4] && image[8] == input[8] &&
      start <= |image| && image[8..start] == input[8..start] && image[start..] == tags
  {
    var image := header + body;
    assert image[..4] == header[..4];
    assert image[..3] == image[..4][..3];
    assert input[..3] == input[..4][..3];
  }
}
