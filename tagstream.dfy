/**
 * The tag loop seen one level up: a body as a list of tag records. The loop
 * copies each record as it was read and inserts EnableTelemetry after
 * FileAttributes, or after the Metadata tag that immediately follows it.
 * `InsertTelemetry` states that on records, and `StreamRewrite` /
 * `StreamStops` prove that `RewriteTags` on the encoded records does
 * exactly that.
 */
module TagStream {
  import opened Wire
  import opened AddOptIn

  ghost predicate AllValid(tags: seq<Record>) {
    forall i | 0 <= i < |tags| :: ValidRecord(tags[i])
  }

  /** The records written back to back, each in the form it was read in. */
  function EncodeAll(tags: seq<Record>): (s: seq<byte>)
    requires AllValid(tags)
    ensures |s| >= 2 * |tags|
    decreases |tags|
  {
    if |tags| == 0 then [] else EncodeRecord(tags[0]) + EncodeAll(tags[1..])
  }

  /**
   * Records the loop dispatches one at a time without stopping: none is End,
   * EnableTelemetry or SignedSwf, and every FileAttributes record brings the
   * record it looks ahead at, which is copied but not dispatched, whatever
   * its type; only with `guardLookahead` is it not EnableTelemetry or
   * SignedSwf.
   */
  ghost predicate Dispatchable(tags: seq<Record>, guardLookahead: bool)
    decreases |tags|
  {
    if |tags| == 0 then true
    else if tags[0].tagType in {TAG_END, TAG_TELEMETRY, TAG_SIGNED_SWF} then false
    else if tags[0].tagType == TAG_FILE_ATTRIBUTES then
      |tags| >= 2 && (guardLookahead ==> tags[1].tagType !in {TAG_TELEMETRY, TAG_SIGNED_SWF}) &&
      Dispatchable(tags[2..], guardLookahead)
    else Dispatchable(tags[1..], guardLookahead)
  }

  /** The intended edit on records: FileAttributes, [Metadata,] EnableTelemetry. */
  function InsertTelemetry(tags: seq<Record>): (r: seq<Record>)
    ensures AllValid(tags) ==> AllValid(r)
    decreases |tags|
  {
    if |tags| == 0 then []
    else if tags[0].tagType == TAG_FILE_ATTRIBUTES && |tags| >= 2 then
      (if tags[1].tagType == TAG_META then [tags[0], tags[1], TELEMETRY_RECORD]
       else [tags[0], TELEMETRY_RECORD, tags[1]]) + InsertTelemetry(tags[2..])
    else [tags[0]] + InsertTelemetry(tags[1..])
  }

  /** The records other than EnableTelemetry, in order. */
  function WithoutTelemetry(tags: seq<Record>): (r: seq<Record>)
    ensures |r| <= |tags|
    ensures forall i | 0 <= i < |r| :: r[i].tagType != TAG_TELEMETRY
    decreases |tags|
  {
    if |tags| == 0 then []
    else if tags[0].tagType == TAG_TELEMETRY then WithoutTelemetry(tags[1..])
    else [tags[0]] + WithoutTelemetry(tags[1..])
  }

  lemma {:induction false} EncodeAllAppend(a: seq<Record>, b: seq<Record>)
    requires AllValid(a) && AllValid(b)
    ensures AllValid(a + b) && EncodeAll(a + b) == EncodeAll(a) + EncodeAll(b)
    decreases |a|
  {
    AllValidAppend(a, b);
    if |a| == 0 {
      assert a + b == b;
    } else {
      assert (a + b)[1..] == a[1..] + b;
      EncodeAllAppend(a[1..], b);
    }
  }

  lemma AllValidAppend(a: seq<Record>, b: seq<Record>)
    requires AllValid(a) && AllValid(b)
    ensures AllValid(a + b)
  {
    forall i | 0 <= i < |a + b|
      ensures ValidRecord((a + b)[i])
    {
      if i < |a| {
        assert (a + b)[i] == a[i];
      } else {
        assert (a + b)[i] == b[i - |a|];
      }
    }
  }

  lemma {:induction false} WithoutTelemetryAppend(a: seq<Record>, b: seq<Record>)
    ensures WithoutTelemetry(a + b) == WithoutTelemetry(a) + WithoutTelemetry(b)
    decreases |a|
  {
    if |a| == 0 {
      assert a + b == b;
    } else {
      assert (a + b)[1..] == a[1..] + b;
      WithoutTelemetryAppend(a[1..], b);
    }
  }

  /** A valid record followed by anything decodes to itself, over exactly its encoding. */
  lemma ReadRecord(t: Record, after: seq<byte>)
    requires ValidRecord(t)
    ensures var s := EncodeRecord(t) + after;
      DecodeTag(s) == Some(t) && TagLength(t) == |EncodeRecord(t)| &&
      s[..TagLength(t)] == EncodeRecord(t) && s[TagLength(t)..] == after
  {
    DecodeEncode(t, after);
  }

  /** One ordinary record: copied, and the loop goes on after it. */
  lemma PlainStep(t: Record, after: seq<byte>, guardLookahead: bool)
    requires ValidRecord(t)
    requires t.tagType !in {TAG_END, TAG_FILE_ATTRIBUTES, TAG_TELEMETRY, TAG_SIGNED_SWF}
    ensures RewriteTags(EncodeRecord(t) + after, guardLookahead)
      == Then(EncodeRecord(t), RewriteTags(after, guardLookahead))
  {
    ReadRecord(t, after);
  }

  /**
   * FileAttributes and the record after it: both copied, EnableTelemetry in
   * between or after. Unguarded, the record after it may be anything.
   */
  lemma FileAttributesStep(fa: Record, next: Record, after: seq<byte>, guardLookahead: bool)
    requires ValidRecord(fa) && ValidRecord(next)
    requires fa.tagType == TAG_FILE_ATTRIBUTES
    requires guardLookahead ==> next.tagType !in {TAG_TELEMETRY, TAG_SIGNED_SWF}
    ensures RewriteTags(EncodeRecord(fa) + (EncodeRecord(next) + after), guardLookahead)
      == Then(WithTelemetry(EncodeRecord(fa), EncodeRecord(next), next.tagType == TAG_META),
              RewriteTags(after, guardLookahead))
  {
    ReadRecord(fa, EncodeRecord(next) + after);
    ReadRecord(next, after);
  }

  /**
   * The record read ahead after FileAttributes is copied even when it is
   * End, and the loop goes on reading: a body that ends right there runs
   * out of bytes.
   */
  lemma FileAttributesThenEnd(fa: Record, end: Record, guardLookahead: bool)
    requires ValidRecord(fa) && ValidRecord(end)
    requires fa.tagType == TAG_FILE_ATTRIBUTES && end.tagType == TAG_END
    ensures RewriteTags(EncodeRecord(fa) + EncodeRecord(end), guardLookahead) == Err(Truncated)
  {
    assert EncodeRecord(end) + [] == EncodeRecord(end);
    FileAttributesStep(fa, end, [], guardLookahead);
    assert DecodeTag([]) == None;
  }

  /**
   * Dispatching `tags` writes exactly the records `InsertTelemetry` gives,
   * and leaves the loop at the first byte after them.
   */
  lemma {:induction false} StreamRewrite(tags: seq<Record>, rest: seq<byte>, guardLookahead: bool)
    requires AllValid(tags) && Dispatchable(tags, guardLookahead)
    ensures RewriteTags(EncodeAll(tags) + rest, guardLookahead)
      == Then(EncodeAll(InsertTelemetry(tags)), RewriteTags(rest, guardLookahead))
    decreases |tags|, 1
  {
    if |tags| == 0 {
      assert EncodeAll(tags) + rest == rest;
      assert EncodeAll(InsertTelemetry(tags)) == [];
      var r := RewriteTags(rest, guardLookahead);
      if r.Ok? {
        assert [] + r.value == r.value;
      }
    } else if tags[0].tagType == TAG_FILE_ATTRIBUTES {
      StreamRewriteFileAttributes(tags, rest, guardLookahead);
    } else {
      StreamRewritePlain(tags, rest, guardLookahead);
    }
  }

  lemma {:induction false} StreamRewritePlain(tags: seq<Record>, rest: seq<byte>, guardLookahead: bool)
    requires AllValid(tags) && Dispatchable(tags, guardLookahead)
    requires |tags| > 0 && tags[0].tagType != TAG_FILE_ATTRIBUTES
    ensures RewriteTags(EncodeAll(tags) + rest, guardLookahead)
      == Then(EncodeAll(InsertTelemetry(tags)), RewriteTags(rest, guardLookahead))
    decreases |tags|, 0
  {
    var g := guardLookahead;
    var t, more := tags[0], tags[1..];
    assert ValidRecord(t) && AllValid(more);
    assert EncodeAll(tags) + rest == EncodeRecord(t) + (EncodeAll(more) + rest);
    PlainStep(t, EncodeAll(more) + rest, g);
    StreamRewrite(more, rest, g);
    assert InsertTelemetry(tags) == [t] + InsertTelemetry(more);
    EncodeAllAppend([t], InsertTelemetry(more));
    assert EncodeAll([t]) == EncodeRecord(t);
    ThenThen(EncodeRecord(t), EncodeAll(InsertTelemetry(more)), RewriteTags(rest, g));
  }

  lemma {:induction false} StreamRewriteFileAttributes(tags: seq<Record>, rest: seq<byte>, guardLookahead: bool)
    requires AllValid(tags) && Dispatchable(tags, guardLookahead)
    requires |tags| > 0 && tags[0].tagType == TAG_FILE_ATTRIBUTES
    ensures RewriteTags(EncodeAll(tags) + rest, guardLookahead)
      == Then(EncodeAll(InsertTelemetry(tags)), RewriteTags(rest, guardLookahead))
    decreases |tags|, 0
  {
    var written := EncodeInserted(tags);
    FileAttributesPrefix(tags, rest, guardLookahead);
    StreamRewrite(tags[2..], rest, guardLookahead);
    ThenThen(written, EncodeAll(InsertTelemetry(tags[2..])), RewriteTags(rest, guardLookahead));
  }

  lemma FileAttributesPrefix(tags: seq<Record>, rest: seq<byte>, guardLookahead: bool)
    requires AllValid(tags) && Dispatchable(tags, guardLookahead)
    requires |tags| > 0 && tags[0].tagType == TAG_FILE_ATTRIBUTES
    ensures |tags| >= 2 && AllValid(tags[2..])
    ensures RewriteTags(EncodeAll(tags) + rest, guardLookahead)
      == Then(WithTelemetry(EncodeRecord(tags[0]), EncodeRecord(tags[1]), tags[1].tagType == TAG_META),
              RewriteTags(EncodeAll(tags[2..]) + rest, guardLookahead))
  {
    var fa, next, more := tags[0], tags[1], tags[2..];
    EncodeFirstTwo(tags, rest);
    var tail := EncodeAll(more) + rest;
    FileAttributesStep(fa, next, tail, guardLookahead);
  }

  lemma EncodeFirstTwo(tags: seq<Record>, rest: seq<byte>)
    requires AllValid(tags) && |tags| >= 2
    ensures ValidRecord(tags[0]) && ValidRecord(tags[1]) && AllValid(tags[2..])
    ensures EncodeAll(tags) + rest
      == EncodeRecord(tags[0]) + (EncodeRecord(tags[1]) + (EncodeAll(tags[2..]) + rest))
  {
    var after := tags[1..];
    EncodeUnfold(tags);
    EncodeUnfold(after);
    assert after[0] == tags[1] && after[1..] == tags[2..];
    var first, second, more := EncodeRecord(tags[0]), EncodeRecord(tags[1]), EncodeAll(tags[2..]);
    assert EncodeAll(tags) == first + (second + more);
    Regroup(first, second, more, rest);
  }

  lemma Regroup(a: seq<byte>, b: seq<byte>, c: seq<byte>, d: seq<byte>)
    ensures a + (b + c) + d == a + (b + (c + d))
  {
  }

  lemma EncodeUnfold(tags: seq<Record>)
    requires AllValid(tags) && |tags| > 0
    ensures ValidRecord(tags[0]) && AllValid(tags[1..])
    ensures EncodeAll(tags) == EncodeRecord(tags[0]) + EncodeAll(tags[1..])
  {
    assert forall i | 0 <= i < |tags| - 1 :: tags[1..][i] == tags[i + 1];
  }

  /** The bytes written for a FileAttributes record and the record after it. */
  lemma EncodeInserted(tags: seq<Record>) returns (written: seq<byte>)
    requires AllValid(tags) && |tags| >= 2 && tags[0].tagType == TAG_FILE_ATTRIBUTES
    ensures AllValid(tags[2..])
    ensures written == WithTelemetry(EncodeRecord(tags[0]), EncodeRecord(tags[1]), tags[1].tagType == TAG_META)
    ensures EncodeAll(InsertTelemetry(tags)) == written + EncodeAll(InsertTelemetry(tags[2..]))
  {
    var fa, next, more := tags[0], tags[1], tags[2..];
    assert ValidRecord(fa) && ValidRecord(next) && AllValid(more);
    var t := TelemetryTag();
    var inserted := if next.tagType == TAG_META then [fa, next, TELEMETRY_RECORD]
                    else [fa, TELEMETRY_RECORD, next];
    assert InsertTelemetry(tags) == inserted + InsertTelemetry(more);
    written := EncodeThree(inserted[0], inserted[1], inserted[2]);
    assert [inserted[0], inserted[1], inserted[2]] == inserted;
    EncodeAllAppend(inserted, InsertTelemetry(more));
  }

  lemma EncodeThree(a: Record, b: Record, c: Record) returns (s: seq<byte>)
    requires ValidRecord(a) && ValidRecord(b) && ValidRecord(c)
    ensures AllValid([a, b, c])
    ensures s == EncodeAll([a, b, c]) == EncodeRecord(a) + EncodeRecord(b) + EncodeRecord(c)
  {
    assert [c] + [] == [c] && [b] + [c] == [b, c] && [a] + [b, c] == [a, b, c];
    EncodeCons(c, []);
    EncodeCons(b, [c]);
    EncodeCons(a, [b, c]);
    assert EncodeRecord(c) + [] == EncodeRecord(c);
    s := EncodeAll([a, b, c]);
  }

  lemma EncodeCons(r: Record, rs: seq<Record>)
    requires ValidRecord(r) && AllValid(rs)
    ensures AllValid([r] + rs) && EncodeAll([r] + rs) == EncodeRecord(r) + EncodeAll(rs)
  {
    assert ([r] + rs)[1..] == rs;
  }

  /**
   * The loop ends at the first dispatched End, EnableTelemetry or SignedSwf
   * record: End is copied and the result is the edited stream; the other
   * two reject the file.
   */
  lemma StreamStops(tags: seq<Record>, last: Record, rest: seq<byte>, guardLookahead: bool)
    requires AllValid(tags) && Dispatchable(tags, guardLookahead) && ValidRecord(last)
    requires last.tagType in {TAG_END, TAG_TELEMETRY, TAG_SIGNED_SWF}
    ensures AllValid(tags + [last])
    ensures RewriteTags(EncodeAll(tags + [last]) + rest, guardLookahead) ==
      if last.tagType == TAG_END then Ok(EncodeAll(InsertTelemetry(tags) + [last]))
      else if last.tagType == TAG_TELEMETRY then Err(AlreadyEnabled)
      else Err(SignedSwf)
  {
    StreamReachesLast(tags, last, rest, guardLookahead);
    StopAt(last, rest, guardLookahead);
    EncodeAllAppend(InsertTelemetry(tags), [last]);
    assert EncodeAll([last]) == EncodeRecord(last);
  }

  lemma StreamReachesLast(tags: seq<Record>, last: Record, rest: seq<byte>, guardLookahead: bool)
    requires AllValid(tags) && Dispatchable(tags, guardLookahead) && ValidRecord(last)
    ensures AllValid(tags + [last])
    ensures RewriteTags(EncodeAll(tags + [last]) + rest, guardLookahead) ==
      Then(EncodeAll(InsertTelemetry(tags)), RewriteTags(EncodeRecord(last) + rest, guardLookahead))
  {
    var after := EncodeRecord(last) + rest;
    EncodeLast(tags, last, rest);
    StreamRewrite(tags, after, guardLookahead);
  }

  lemma EncodeLast(tags: seq<Record>, last: Record, rest: seq<byte>)
    requires AllValid(tags) && ValidRecord(last)
    ensures AllValid(tags + [last])
    ensures EncodeAll(tags + [last]) + rest == EncodeAll(tags) + (EncodeRecord(last) + rest)
  {
    EncodeAllAppend(tags, [last]);
    assert EncodeAll([last]) == EncodeRecord(last);
  }

  /** A dispatched End, EnableTelemetry or SignedSwf record ends the loop. */
  lemma StopAt(last: Record, rest: seq<byte>, guardLookahead: bool)
    requires ValidRecord(last) && last.tagType in {TAG_END, TAG_TELEMETRY, TAG_SIGNED_SWF}
    ensures RewriteTags(EncodeRecord(last) + rest, guardLookahead) ==
      if last.tagType == TAG_END then Ok(EncodeRecord(last))
      else if last.tagType == TAG_TELEMETRY then Err(AlreadyEnabled)
      else Err(SignedSwf)
  {
    ReadRecord(last, rest);
  }

  /** A body without FileAttributes passes through unchanged. */
  lemma {:induction false} NoFileAttributesUnchanged(tags: seq<Record>)
    requires forall i | 0 <= i < |tags| :: tags[i].tagType != TAG_FILE_ATTRIBUTES
    ensures InsertTelemetry(tags) == tags
    decreases |tags|
  {
    if |tags| > 0 {
      NoFileAttributesUnchanged(tags[1..]);
    }
  }

  /**
   * A body without FileAttributes: from `start`, the loop writes back every
   * tag up to and including End, byte for byte, and nothing after End.
   * `CopiedRun` turns that into the whole output file.
   */
  lemma CopiedTags(input: seq<byte>, start: nat, tags: seq<Record>, last: Record, rest: seq<byte>,
                   guardLookahead: bool)
    requires start <= |input|
    requires AllValid(tags + [last]) && Dispatchable(tags, guardLookahead) && last.tagType == TAG_END
    requires forall i | 0 <= i < |tags| :: tags[i].tagType != TAG_FILE_ATTRIBUTES
    requires input[start..] == EncodeAll(tags + [last]) + rest
    ensures start <= |input| - |rest|
    ensures RewriteTags(input[start..], guardLookahead) == Ok(input[start..|input| - |rest|])
  {
    var encoded := EncodeAll(tags + [last]);
    assert AllValid(tags) && ValidRecord(last) by {
      assert forall i | 0 <= i < |tags| :: tags[i] == (tags + [last])[i];
      assert last == (tags + [last])[|tags|];
    }
    StreamStops(tags, last, rest, guardLookahead);
    NoFileAttributesUnchanged(tags);
    CopiedFrame(input, start, encoded, rest);
  }

  /**
   * A run whose tag loop writes back the input from the first tag up to
   * `end` outputs the input up to `end` unchanged, apart from the length
   * field, which becomes `end`: the signature and version, the frame
   * fields and the tags.
   */
  lemma CopiedRun(input: seq<byte>, guardLookahead: bool, compression: Compression, start: nat, end: nat)
    requires |input| > 8 && SelectCompression(input[..3]) == Ok(compression)
    requires start == 8 + FramePrefixLength(input[8]) <= end <= |input|
    requires RewriteTags(input[start..], guardLookahead) == Ok(input[start..end])
    ensures Rewrite(input, guardLookahead) == Ok(Output(compression, input[..4] + PutLe(end, 4), input[8..end]))
  {
    SliceJoin(input, 8, start, end);
    RewriteParts(input, guardLookahead, compression, start);
  }

  lemma SliceJoin(s: seq<byte>, i: nat, j: nat, k: nat)
    requires i <= j <= k <= |s|
    ensures s[i..j] + s[j..k] == s[i..k]
  {
  }

  /** The copied tags are the input from `start` up to where `rest` begins. */
  lemma CopiedFrame(input: seq<byte>, start: nat, encoded: seq<byte>, rest: seq<byte>)
    requires start <= |input| && input[start..] == encoded + rest
    ensures start + |encoded| == |input| - |rest|
    ensures input[start..|input| - |rest|] == encoded
  {
    assert input[start..][..|encoded|] == encoded;
  }

  /** Apart from the EnableTelemetry records it adds, the edit changes nothing. */
  lemma {:induction false} OnlyTelemetryAdded(tags: seq<Record>)
    requires Dispatchable(tags, false)
    ensures WithoutTelemetry(InsertTelemetry(tags)) == WithoutTelemetry(tags)
    decreases |tags|
  {
    if |tags| == 0 {
    } else if tags[0].tagType == TAG_FILE_ATTRIBUTES {
      var fa, next, more := tags[0], tags[1], tags[2..];
      OnlyTelemetryAdded(more);
      var inserted := if next.tagType == TAG_META then [fa, next, TELEMETRY_RECORD]
                      else [fa, TELEMETRY_RECORD, next];
      assert InsertTelemetry(tags) == inserted + InsertTelemetry(more);
      WithoutTelemetryAppend(inserted, InsertTelemetry(more));
      WithoutTelemetryAppend([fa, next], more);
      assert tags == [fa, next] + more;
      InsertedWithoutTelemetry(fa, next);
    } else {
      OnlyTelemetryAdded(tags[1..]);
      WithoutTelemetryAppend([tags[0]], InsertTelemetry(tags[1..]));
    }
  }

  /** The tags written for FileAttributes and its look-ahead tag, once EnableTelemetry is removed. */
  lemma InsertedWithoutTelemetry(fa: Record, next: Record)
    requires fa.tagType != TAG_TELEMETRY
    ensures var inserted := if next.tagType == TAG_META then [fa, next, TELEMETRY_RECORD]
                            else [fa, TELEMETRY_RECORD, next];
      WithoutTelemetry(inserted) == WithoutTelemetry([fa, next])
  {
    var t := TELEMETRY_RECORD;
    assert WithoutTelemetry([t]) == [] by {
      assert [t][1..] == [];
    }
    if next.tagType == TAG_META {
      assert [fa, next, t] == [fa, next] + [t];
      WithoutTelemetryAppend([fa, next], [t]);
    } else {
      assert [fa, t, next] == [fa, t] + [next];
      assert [fa, t] == [fa] + [t] && [fa, next] == [fa] + [next];
      WithoutTelemetryAppend([fa, t], [next]);
      WithoutTelemetryAppend([fa], [t]);
      WithoutTelemetryAppend([fa], [next]);
    }
  }
}
