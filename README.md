# add-opt-in: inserting an EnableTelemetry tag into an SWF

`add-opt-in` rewrites an SWF file so that it carries an EnableTelemetry tag
(tag type 93). The steps are:

- Read the 8-byte header: the signature, the version and the file length.
- Choose a reader and a writer from the signature. `FWS` is plain and `CWS`
  is zlib. `ZWS` (LZMA) is refused.
- Copy the RECT. Its first 5 bits give `NBits`, and that fixes how many
  bytes follow. Then copy the frame rate and the frame count.
- Copy the tags one at a time:
  - Stop with an error at a tag the loop dispatches if it is
    EnableTelemetry (93) or SignedSwf (94).
  - At FileAttributes (69), read one more tag ahead. If that tag is Metadata
    (77), write FileAttributes, Metadata, EnableTelemetry. Otherwise write
    FileAttributes, EnableTelemetry, then the tag read ahead.
  - Stop after a dispatched End tag (0). The tag read ahead after
    FileAttributes is copied and the loop goes on, even when it is End.
- Overwrite the length field at offset 4. The new value is a uint32 counter
  of every uncompressed byte written.

The model has seven modules:

- `Wire`: little-endian integers and the RECORDHEADER framing. A tag is a
  `Record`: its type, whether it uses the long form, and its payload.
  `DecodeTag` reads a tag the way `peekTag` does. `EncodeRecord` gives a
  record's exact wire bytes. The fixed EnableTelemetry tag is
  `42 17 00 00`.
- `BitLevel`: the shift and mask expressions of the source on `bv16` and
  `bv8`. It proves they equal the `/` and `%` that the rest of the model
  uses.
- `Rect`: the `NBits` and trailing-byte arithmetic of the RECT.
- `AddOptIn`: the whole run as functions of the file's uncompressed image.
  `RewriteTags` is the tag loop. `Rewrite` covers the header, the dispatch,
  the frame copy, the loop and the length patch.
- `TagStream`: lemmas that describe `RewriteTags` on a body built from
  records. The output is the input with EnableTelemetry placed after each
  FileAttributes that the loop dispatches, or after the Metadata that
  follows it. A FileAttributes tag read as the look-ahead tag is copied
  with no insertion. The loop stops at a dispatched End, 93 or 94. The tag
  read ahead after FileAttributes is copied and the loop goes on, even when
  it is End. Nothing else changes.
- `Rewriter`: the program as it runs. A `Rewriter` object holds:
  - the input and a read position;
  - the header written to the file;
  - the body sent through the writer;
  - the uncompressed-length counter, kept equal to the bytes written.

  Its methods mirror `peekTag`, `writeTelemetryTag` and the steps of `main`.
  The tag loop is a `while` loop. `RewriteFile` is proved to return exactly
  `Rewrite`.
- `Rerun`: what happens when the program runs on its own output (see
  Findings).

`Rewrite` and `RewriteTags` take a parameter `guardLookahead`:

- `false` is the loop as written in the source.
- `true` is the corrected loop. It also refuses a tag of type 93 or 94 when
  that tag is the one read ahead after FileAttributes.

Three points where the model makes a choice:

- Short reads. The program ignores the errors from `binary.Read` and
  `io.ReadFull`, so a short read leaves zeroes in its buffers and the run
  goes on. The model returns `Err(Truncated)` instead.
- Unknown signature. The `if` chain at add-opt-in.go:121-134 has no `else`
  branch, so the program would go on reading from a nil reader and crash.
  The model returns `Err(InvalidSignature)`.
- Long-form tags. The program copies each tag as the exact bytes it read
  (add-opt-in.go:45, 54, 59). A long-form tag whose payload is shorter than
  63 bytes therefore stays long form, and `Record.longForm` keeps that
  choice.

## Model

| member | source | states |
|---|---|---|
| Wire.PutLeOfLeValue | add-opt-in.go:44-45 | writing back, little-endian, a value read from `w` bytes gives those same bytes |
| Wire.LeValue | add-opt-in.go:44 | the value read little-endian from `w` bytes is below 256^w |
| Wire.PutLe | add-opt-in.go:217 | a little-endian write at width `w` emits exactly `w` bytes; `LeValueOfPutLe` and `PutLeOfLeValue` make it the inverse of `LeValue` |
| Wire.LeValueOfPutLe | add-opt-in.go:217 | the value read from a `w`-byte little-endian write of `n` is `n mod 256^w` |
| Wire.Uint32RoundTrip | add-opt-in.go:211-217 | the patched length field reads back as the counter mod 2^32, and as the counter itself below 2^32 |
| Wire.Uint16RoundTrip | add-opt-in.go:43-45 | a tag word written back reads as the same uint16 |
| Wire.TagTypeOf | add-opt-in.go:47 | the tag type taken from a word is below 1024 |
| Wire.ShortLengthOf | add-opt-in.go:48 | the short length taken from a word is below 64 |
| Wire.TagWord | add-opt-in.go:76 | packing a type and a short length gives a word from which `>> 6` and `& 0x3f` recover both |
| Wire.TagWordOfFields | add-opt-in.go:47-48 | every uint16 word is the packing of its own type and short length |
| Wire.DecodeTag | add-opt-in.go:35-62 | a tag read from a buffer is well formed and fits inside the buffer |
| Wire.RecordHeader | add-opt-in.go:43-56 | the RECORDHEADER of a tag is 2 bytes in the short form and 6 in the long form |
| Wire.EncodeRecord | add-opt-in.go:35-62 | the bytes of a tag are its header followed by its payload; `DecodeEncode` makes decoding its inverse |
| Wire.DecodedIsPrefix | add-opt-in.go:35-62 | the bytes `peekTag` returns for a tag are the front of the input, and they are that tag's encoding |
| Wire.DecodedHeader | add-opt-in.go:43-56 | the header of a decoded tag (word, and the uint32 length in the long form) is the input's first 2 or 6 bytes |
| Wire.DecodeEncode | add-opt-in.go:35-62 | reading the encoding of any well-formed tag, followed by anything, gives back that tag |
| Wire.TelemetryTag | add-opt-in.go:64-84 | the inserted tag is the bytes `42 17 00 00`: a short-form tag of type 93 with a two-byte zero payload |
| Wire.TelemetryTagDecodes | add-opt-in.go:64-84 | reading back the inserted tag gives type 93, short form, payload `00 00` |
| BitLevel.ShiftAndMask | add-opt-in.go:47-48 | on a uint16, `>> 6` and `& 0x3f` are the quotient and the remainder by 64 |
| BitLevel.ShiftOr | add-opt-in.go:76 | on uint16, shifting the type left by 6 and or-ing in the length is the packing that `Wire.TagWord` defines |
| BitLevel.Fields | add-opt-in.go:76 | on uint16, `>> 6` and `& 0x3f` recover the type and the length packed by shift and or |
| BitLevel.RectShift | add-opt-in.go:157 | `(frameSize & 0xff) >> 3` on a uint8 is `frameSize / 8` |
| Rect.NBits | add-opt-in.go:157 | NBits, the top 5 bits of the first RECT byte, is at most 31 |
| Rect.TrailingBytes | add-opt-in.go:160 | the bytes read after the first RECT byte are at most 16, and they hold the 4·NBits+5 bits of the RECT less the first byte's 8 |
| Rect.TrailingBytesExamples | add-opt-in.go:160 | NBits 0, 8 and 31 need 0, 4 and 16 trailing bytes |
| AddOptIn.SelectCompression | add-opt-in.go:116-134 | `FWS` selects the plain path and `CWS` zlib, each if and only if; `ZWS` fails as unsupported; every other signature fails as invalid |
| AddOptIn.FramePrefixLength | add-opt-in.go:153-176 | the RECT, frame rate and frame count take 5 to 21 bytes |
| AddOptIn.TagLength | add-opt-in.go:57-61 | every tag occupies at least its 2-byte word |
| AddOptIn.WithTelemetry | add-opt-in.go:184-197 | the FileAttributes step writes its two tags and exactly 4 more bytes |
| AddOptIn.RewriteTags | add-opt-in.go:178-206 | the tag loop fails only as truncated, already enabled or signed |
| AddOptIn.Rewrite | add-opt-in.go:101-217 | a successful run writes an 8-byte header, from an input longer than its header |
| AddOptIn.Assemble | add-opt-in.go:211-217 | once the loop ends, the output header is 8 bytes |
| AddOptIn.RewriteParts | add-opt-in.go:153-179 | the run is the header, the copied frame bytes and the tag loop over the rest of the input, put together |
| AddOptIn.RewriteDispatch | add-opt-in.go:116-134 | a short header is truncated; ZWS fails as unsupported if and only if it is the signature; an unknown signature fails as invalid if and only if it is not FWS, CWS or ZWS; a successful run keeps the compression its signature selects |
| AddOptIn.RewritePatchesLength | add-opt-in.go:211-217 | the output keeps the signature and version, and its length field holds the number of bytes written (header and body) mod 2^32 |
| AddOptIn.RewriteCopiesFrame | add-opt-in.go:153-176 | the output body starts with the input's RECT, frame rate and frame count, byte for byte |
| TagStream.EncodeAll | add-opt-in.go:35-62 | a body of `k` tags takes at least `2k` bytes |
| TagStream.InsertTelemetry | add-opt-in.go:184-197 | inserting EnableTelemetry keeps every tag well formed |
| TagStream.WithoutTelemetry | add-opt-in.go:180-181 | removing the EnableTelemetry tags leaves none of them and never lengthens the list |
| TagStream.ReadRecord | add-opt-in.go:57-61 | peeking at an encoded tag returns the tag, consumes exactly its encoding, and leaves the rest of the stream |
| TagStream.PlainStep | add-opt-in.go:202-205 | any tag other than End, FileAttributes, 93 and 94 is copied as read, and the loop continues after it |
| TagStream.FileAttributesStep | add-opt-in.go:184-197 | FileAttributes and the tag read ahead are written with EnableTelemetry, placed after Metadata or between the two; the loop continues after the look-ahead tag |
| TagStream.FileAttributesThenEnd | add-opt-in.go:184-197 | an End tag read ahead after FileAttributes is copied, not obeyed: the loop reads on, and a body that ends there is Truncated |
| TagStream.StreamRewrite | add-opt-in.go:178-206 | over a run of tags, the loop writes the same tags, with EnableTelemetry after each FileAttributes it dispatches (or after the Metadata that follows it); a FileAttributes read as the look-ahead tag is copied with no insertion; as written (`guardLookahead` false) a 93 or 94 read ahead is copied too |
| TagStream.StreamRewritePlain | add-opt-in.go:202-205 | the same, for a run that starts with a tag copied as read |
| TagStream.StreamRewriteFileAttributes | add-opt-in.go:184-197 | the same, for a run that starts with FileAttributes |
| TagStream.FileAttributesPrefix | add-opt-in.go:184-197 | FileAttributes always has a next tag in a valid run, and the loop consumes both as one step |
| TagStream.StreamStops | add-opt-in.go:178-201 | a body ending in End gives the rewritten tags and that End, whatever bytes follow it; ending in 93 gives already enabled; ending in 94 gives signed |
| TagStream.StreamReachesLast | add-opt-in.go:178-206 | the loop writes the rewritten tags before it reaches the last tag |
| TagStream.StopAt | add-opt-in.go:179-201 | End is copied and stops the loop; 93 and 94 stop it with their errors |
| TagStream.NoFileAttributesUnchanged | add-opt-in.go:202-205 | without FileAttributes, nothing is inserted: the output tags are the input tags |
| TagStream.CopiedTags | add-opt-in.go:178-206 | for a body without FileAttributes, the loop writes back every tag up to and including End byte for byte, and nothing after End |
| TagStream.CopiedRun | add-opt-in.go:136-217 | when the loop writes back the input from the first tag up to some point, the output is the input up to that point, with the length field set to that point |
| TagStream.OnlyTelemetryAdded | add-opt-in.go:184-197 | apart from the EnableTelemetry tags, the output tags are the input tags in the same order, with the look-ahead guarded or not |
| TagStream.InsertedWithoutTelemetry | add-opt-in.go:188-197 | the tags written for FileAttributes and its look-ahead tag, with EnableTelemetry removed, are those two tags, whatever the look-ahead tag is |
| Rerun.DecodeRaw | add-opt-in.go:57-61 | the bytes read for a tag are its encoding, and they still read as that tag in front of any other bytes |
| Rerun.InsertsOnce | add-opt-in.go:184-197 | FileAttributes, then a plain tag, then a body without FileAttributes, gives the same tags with one EnableTelemetry after FileAttributes |
| Rerun.UnguardedInsertsAgain | add-opt-in.go:188-197 | as written, that output run again gives two EnableTelemetry tags, not an error |
| Rerun.PlainTailCopied | add-opt-in.go:202-205 | a body of plain tags ending in End is copied unchanged |
| Rerun.SecondTelemetryCopied | add-opt-in.go:188-197 | as written, FileAttributes then EnableTelemetry gets a second EnableTelemetry in front of the first |
| Rerun.LookaheadAtTelemetry | add-opt-in.go:188-197 | as written, an EnableTelemetry tag right after FileAttributes is copied, not refused |
| Rerun.UnguardedRerunInsertsTwice | add-opt-in.go:178-206 | as written, a second run over the first run's output inserts a second EnableTelemetry tag |
| Rerun.GuardedRejectsInserted | add-opt-in.go:180-197 | corrected, whatever the FileAttributes step wrote is refused as already enabled when read again |
| Rerun.MetaThenTelemetryRejected | add-opt-in.go:188-193 | corrected, FileAttributes, Metadata, EnableTelemetry is refused as already enabled |
| Rerun.TelemetryLookaheadRejected | add-opt-in.go:193-197 | corrected, FileAttributes followed by EnableTelemetry is refused as already enabled |
| Rerun.GuardedRerunTags | add-opt-in.go:178-206 | corrected, running the loop on its own output either refuses it as already enabled or writes it unchanged |
| Rerun.GuardedRerunFileAttributes | add-opt-in.go:184-197 | corrected, the output of a body that starts with FileAttributes is refused when run again |
| Rerun.GuardedRerun | add-opt-in.go:101-217 | corrected, running the program on its own output either fails as already enabled or gives the same output again |
| Rerun.FirstRun | add-opt-in.go:136-217 | with the look-ahead guarded or not, a successful run's header keeps the first 4 input bytes, and its body is the copied frame followed by the loop's output |
| Rerun.SecondRun | add-opt-in.go:101-179 | with the look-ahead guarded or not, running again on an output reads the same signature and RECT, and then runs the loop over the first run's tag output |
| Rewriter.Rewriter.constructor | add-opt-in.go:136-138 | a new run has read nothing, written nothing, and its counter is 0; from here on `Valid()` keeps the counter equal to the bytes written, header and body |
| Rewriter.Rewriter.ReadFull | add-opt-in.go:161-162 | reads exactly `n` bytes and advances by `n`, or reports the short read with the input drained |
| Rewriter.Rewriter.WriteBody | add-opt-in.go:185-186 | appends to the body and adds its length to the counter |
| Rewriter.Rewriter.WriteHeader | add-opt-in.go:140-142 | writes the 8 header bytes and adds 8 to the counter |
| Rewriter.Rewriter.PeekTag | add-opt-in.go:35-62 | returns the next tag's type and every byte read for it, and advances by exactly those bytes |
| Rewriter.Rewriter.PeekLongTag | add-opt-in.go:50-56 | after a word with short length 63, reads the uint32 length and then the payload |
| Rewriter.Rewriter.ReadTagData | add-opt-in.go:57-61 | reads the payload and appends it to the tag buffer |
| Rewriter.Rewriter.WriteTelemetryTag | add-opt-in.go:64-84 | writes `42 17 00 00` and adds 4 to the counter |
| Rewriter.Rewriter.CopyRect | add-opt-in.go:153-167 | copies the first RECT byte and the trailing bytes that its NBits requires, or reports a truncated RECT |
| Rewriter.Rewriter.CopyRateAndCount | add-opt-in.go:169-176 | copies the frame rate and the frame count, 4 bytes |
| Rewriter.Rewriter.CopyFrame | add-opt-in.go:153-176 | copies exactly the RECT, frame rate and frame count, and succeeds if and only if they are all present |
| Rewriter.Rewriter.Run | add-opt-in.go:101-217 | the run as the program performs it returns exactly `Rewrite` |
| Rewriter.Rewriter.RunAfterHeader | add-opt-in.go:136-217 | after the header, the frame copy, the tag loop and the patch complete `Rewrite` |
| Rewriter.Rewriter.RunTags | add-opt-in.go:178-217 | the tag loop and the length patch produce the assembled output of `RewriteTags` |
| Rewriter.Rewriter.PatchLength | add-opt-in.go:211-217 | the header keeps its first 4 bytes, and its length field becomes the counter as a little-endian uint32 |
| Rewriter.Rewriter.CopyTags | add-opt-in.go:178-206 | the `while` loop fails with the error `RewriteTags` gives, or appends exactly what `RewriteTags` writes |
| Rewriter.Rewriter.CopyNextTag | add-opt-in.go:179-205 | one pass of the loop stops with `RewriteTags`'s result or continues, with what is written so far plus the loop over the rest still equal to `RewriteTags` of the whole |
| Rewriter.Rewriter.CopyTagData | add-opt-in.go:198-205 | copies a tag as read, and keeps what is written plus the rest of the loop equal to the expected result |
| Rewriter.Rewriter.CopyFileAttributesStep | add-opt-in.go:184-197 | the FileAttributes pass either stops with the expected error or writes its part and keeps the loop on track |
| Rewriter.Rewriter.CopyFileAttributes | add-opt-in.go:184-197 | peeks at the next tag. A truncated tag fails; corrected, 93 and 94 fail. Otherwise it writes FileAttributes, the look-ahead tag and EnableTelemetry in the order that Metadata decides |
| Rewriter.RewriteFile | add-opt-in.go:101-217 | the program's run on an input image is `Rewrite` |
| Rewriter.RewriteFrameTruncated | add-opt-in.go:153-176 | an input that ends inside the RECT or the frame fields fails as truncated |
| Rewriter.TagAt | add-opt-in.go:35-62 | the bytes peeked for a tag are at least its word and no more than the input holds |
| Rewriter.PeekShortForm | add-opt-in.go:43-61 | with short length below 63, `peekTag` returns the word re-encoded and that many bytes, or finds the tag truncated |
| Rewriter.PeekLongFormTruncated | add-opt-in.go:50-56 | a long-form word without its 4 length bytes is a truncated tag |
| Rewriter.PeekLongForm | add-opt-in.go:50-61 | with short length 63, `peekTag` returns the word, the uint32 length and that many bytes, or finds the tag truncated |
| Rewriter.LoopStep | add-opt-in.go:178-206 | the loop's branch for each tag type matches `RewriteTags`: truncated, 93, 94, End, or copy and continue |
| Rewriter.LoopFileAttributes | add-opt-in.go:184-197 | the loop's FileAttributes branch matches `RewriteTags` for every look-ahead result |

## Left out

- Command-line handling, opening and closing the files, the temporary file,
  copying permissions and the rename (add-opt-in.go:87-114, 219-239) are file
  and process glue. The model takes the input image as a value and returns
  the output.
- The zlib reader and writer (add-opt-in.go:124-130, 207-209) are left out.
  The model records which path the signature selects. The body is modelled
  as the uncompressed bytes that pass through the writer, and the counter is
  kept over those bytes, as the program keeps it.
- LZMA (add-opt-in.go:131-133): the program prints a message and stops. The
  model returns `Err(UnsupportedCompression)`.
- Short reads: the program ignores read errors and goes on with zero-filled
  buffers. The model returns `Err(Truncated)` for every short read. That
  includes an input that ends exactly at a tag boundary, which the program
  would read as an End tag made of zeroes. In particular, a body whose
  FileAttributes is directly followed by its End tag fails as Truncated;
  the program writes FileAttributes, EnableTelemetry, End and then a second
  End of two zero bytes (`TagStream.FileAttributesThenEnd`).
- Panics (add-opt-in.go:181, 183) and the unknown-signature case, where the
  program would read from a nil reader, are modelled as `Err` results.
- The long-form branch of `writeTelemetryTag` (add-opt-in.go:69-74) is
  unreachable, because the length is the constant 2. `TelemetryTag` gives
  the bytes of the short form.
- Integer widths: the counter is a `nat`. The patch writes it mod 2^32
  (`PutLe(n, 4)`), which is the uint32 wrap-around of the source. Bytes and
  words are integers in range. `BitLevel` proves that the shifts and masks
  on `bv16` and `bv8` agree with the integer operations used instead.
- A failed `Seek` at add-opt-in.go:212-216 is file I/O and is not modelled.
- Rewriter.Rewriter.CopyTags: on an error, the contract does not say what
  the body holds, because the program panics and abandons its output.
- Rewriter.Rewriter.CopyNextTag: on an error, the contract does not say what
  the body holds, for the same reason.
- Rewriter.Rewriter.CopyFileAttributesStep: on an error, the contract does
  not say what the body holds, for the same reason.

## Findings

| source | as written | input that shows it | evidently intended | confidence | as-written member | corrected member |
|---|---|---|---|---|---|---|
| add-opt-in.go:188-197 | the tag read ahead after FileAttributes is written without checking for types 93 and 94, so a file that already has EnableTelemetry straight after FileAttributes (the program's own output, when no Metadata follows) is accepted | a body of FileAttributes, ShowFrame, End: the first run writes FileAttributes, EnableTelemetry, ShowFrame, End, and a second run on that output writes FileAttributes, EnableTelemetry, EnableTelemetry, ShowFrame, End | refuse a file with telemetry already enabled (add-opt-in.go:180-181), so running the program twice is an error and never inserts twice | not executed | Rerun.UnguardedRerunInsertsTwice | Rerun.GuardedRerun |
