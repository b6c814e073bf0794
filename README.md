# MPEG-H MHAS packetiser, modelled in Dafny

This project models `MpeghReader`, the reader of the media3 MPEG-TS
extractor that turns an MPEG-H 3D Audio Stream (MHAS, clause 14 of ISO/IEC
23008-3) carried in PES packets into samples. The reader takes the stream
in slices of any size. It moves through three states:

- finding sync;
- reading a packet header into a 15-byte header scratch buffer;
- reading the packet payload.

It writes every packet's bytes to its track output. CONFIG and
AUDIO_TRUNCATION payloads are also staged in a data scratch buffer, so they
can be decoded once complete. At the end of each FRAME packet it writes one
metadata record for the access unit.

Files:

- `types.dfy` (module `MhasTypes`) holds the shared values:
  - bytes, packet headers and decoded configurations;
  - the failure results and the PES flags;
  - the output events (`SampleData`, `Format`, `SampleMetadata`);
  - `Decoder`, which bundles the bit-level `MpeghUtil` parsers the reader
    calls but does not implement.
- `buffers.dfy` (module `Buffers`) models the `ParsableByteArray` cursor (an
  array with a position and a limit) and `System.arraycopy`.
- `sync.dfy` (module `SyncScan`) holds the rolling 32-bit sync accumulator
  of `skipToNextSync`:
  - `Accumulate` is its value after a run of bytes.
  - `FirstSync` is the index of the byte that completes the first sync
    word.
  - Lemmas show that `FirstSync` is the first match, that a scan split
    across slices finds the same match as one scan of both, that the
    low three bytes of the accumulator are the last three bytes read, and
    that, for a sync test on those bytes only, a match inside the slice
    completes a sync word whose three bytes start at the rewound position,
    while a word begun in the earlier slice has its first bytes there.
- `reader.dfy` (module `Mpegh`) holds the class `MpeghReader`:
  - Its fields are those of the Java class.
  - The output is a ghost event log.
  - Its invariant `Valid` ties `frameBytes` to the bytes written since the
    access unit began, plus the unread rest of the current payload. It also
    keeps a staged payload equal, byte for byte, to the payload written so
    far.

`consume` is a loop over the state. Each pass is split into one method per
state, and the long steps into their halves, so that each proof stays
small; each of these methods models a run of consecutive statements of the
Java method. The one exception is `PayloadProgress`: it performs the payload
case by calling `PayloadStep` and states only the progress facts the loop in
`Step` needs, so that `Step`'s proof stays within the solver's budget. As a
result `Step` and `Consume` state progress and the invariant, not each
pass's output (see "Left out").

## Model

Source paths are relative to the repository root. `MpeghReader.java` stands for
`libraries/extractor/src/main/java/androidx/media3/extractor/ts/MpeghReader.java`
in the prose; the table gives the full path.

| member | source | states |
|---|---|---|
| Mpegh.BytesToRead | libraries/extractor/src/main/java/androidx/media3/extractor/ts/MpeghReader.java:210 | `min(bytesLeft, room)`: at most each of the two, and equal to one of them |
| Mpegh.MpeghReader.constructor | libraries/extractor/src/main/java/androidx/media3/extractor/ts/MpeghReader.java:89-99 | a new reader: finding sync, a fresh 15-byte header buffer, an empty data buffer, sentinel rate/length/label, `rapPending` set, both timestamps unset, empty output, invariant established |
| Mpegh.MpeghReader.CreateTracks | libraries/extractor/src/main/java/androidx/media3/extractor/ts/MpeghReader.java:124-129 | the track output is bound afterwards |
| Mpegh.MpeghReader.Seek | libraries/extractor/src/main/java/androidx/media3/extractor/ts/MpeghReader.java:102-121 | every field the constructor sets is back at its initial value, both scratch positions and the data limit are 0, nothing already output is withdrawn, a new access unit starts at the end of the log, and the invariant holds |
| Mpegh.MpeghReader.ResetPacket | libraries/extractor/src/main/java/androidx/media3/extractor/ts/MpeghReader.java:103-111 | state FINDING_SYNC, `syncBytes`, both scratch positions, the data limit, `payloadBytesRead` and `frameBytes` all 0, no header; the invariant holds from any buffer state |
| Mpegh.MpeghReader.ResetStream | libraries/extractor/src/main/java/androidx/media3/extractor/ts/MpeghReader.java:112-120 | rate, frame length, truncation, label and `configFound` back to their initial values; `rapPending` set, `dataPending` clear, both timestamps unset |
| Mpegh.MpeghReader.PacketStarted | libraries/extractor/src/main/java/androidx/media3/extractor/ts/MpeghReader.java:132-148 | the flags are stored; `dataPending` becomes set exactly when it was set or a frame or header is interrupted after a random access point (`rapPending` clear, and `frameBytes` non-zero or the header unfinished); a set timestamp goes to `timeUsPending` while data is pending and to `timeUs` otherwise; an unset one changes neither |
| Mpegh.MpeghReader.NoteTimestamp | libraries/extractor/src/main/java/androidx/media3/extractor/ts/MpeghReader.java:137-147 | the routing of the timestamp, given whether the packet interrupts work in progress |
| Mpegh.MpeghReader.Consume | libraries/extractor/src/main/java/androidx/media3/extractor/ts/MpeghReader.java:151-193 | fails with IllegalState and outputs nothing when no output is bound; on success the slice is fully drained; the log only grows; the loop terminates because every pass leaves sync search or consumes bytes or returns to header reading; a slice without the random access indicator met while finding sync is dropped with no output |
| Mpegh.MpeghReader.Step | libraries/extractor/src/main/java/androidx/media3/extractor/ts/MpeghReader.java:155-191 | one pass of the loop keeps the invariant and makes progress: from sync search it leaves the state or drains the slice; once synced it never re-enters sync search, a header pass consumes at least one byte, and a payload pass either drains the slice or returns to header reading |
| Mpegh.MpeghReader.SyncStep | libraries/extractor/src/main/java/androidx/media3/extractor/ts/MpeghReader.java:156-160 | the outcome of `skipToNextSync` decides the state: no random access indicator keeps FINDING_SYNC and drains the slice; the indicator with alignment moves to READING_HEADER without moving the position; otherwise a `FirstSync` match whose rewind stays at or above index 0 moves to READING_HEADER with the position on the rewound byte and `syncBytes` 0, one whose rewind would go below 0 fails with IllegalArgument in FINDING_SYNC, and no match keeps FINDING_SYNC with the slice drained and the accumulator over all its bytes |
| Mpegh.MpeghReader.HeaderStep | libraries/extractor/src/main/java/androidx/media3/extractor/ts/MpeghReader.java:161-171 | the header buffer holds the bytes kept from the last packet followed by the slice's bytes; if the slice cannot fill it to 15 bytes it is used up, the state stays READING_HEADER and nothing is output; if it fills, exactly the missing bytes are taken, and a header that parses is stored, its first `headerLength` bytes are output and the state becomes READING_PAYLOAD, while one that does not parse fails with ParserError, stays in READING_HEADER and outputs nothing |
| Mpegh.MpeghReader.FillHeader | libraries/extractor/src/main/java/androidx/media3/extractor/ts/MpeghReader.java:162-164 | `maybeAdjustHeaderScratchBuffer` then `continueRead`: the buffer starts with the kept bytes (those after the position once a header was parsed, else those read so far), then takes `min(bytes left, 15 - kept)` slice bytes after them; it is complete exactly when that reaches 15 |
| Mpegh.MpeghReader.TakeHeader | libraries/extractor/src/main/java/androidx/media3/extractor/ts/MpeghReader.java:165-170 | once the buffer is full: a header that parses is stored, its `headerLength` bytes are output and payload reading starts; one that does not fails with ParserError, stays in READING_HEADER and outputs nothing |
| Mpegh.MpeghReader.PayloadStep | libraries/extractor/src/main/java/androidx/media3/extractor/ts/MpeghReader.java:172-188 | the payload bytes left in the header buffer and then those of the slice are output and appended to the payload read so far, never past `packetLength`; while the payload is short the slice is drained, the state stays READING_PAYLOAD and no other field changes; once complete, a CONFIG or AUDIO_TRUNCATION payload that was still short when the pass began is staged whole in the data buffer's first `packetLength` bytes, the packet is acted on as `Acted` and `PacketEvents` say, and the reader returns to header reading unless that fails |
| Mpegh.MpeghReader.PayloadProgress | libraries/extractor/src/main/java/androidx/media3/extractor/ts/MpeghReader.java:172-188 | what consume's loop uses of the payload case: it keeps the invariant, never returns to sync search or moves back in the slice, only grows the output, and either returns to header reading or drains the slice |
| Mpegh.MpeghReader.TakePayload | libraries/extractor/src/main/java/androidx/media3/extractor/ts/MpeghReader.java:173-174 | `maybeCopyToDataScratchBuffer` then `writeSampleData`: the output grows by the header buffer's remaining payload bytes (unless it is used up) and then the slice's, `payloadBytesRead` and the payload so far grow by exactly those bytes, a short payload drains the slice, and for CONFIG and AUDIO_TRUNCATION, when the pass began short of `packetLength`, the staged bytes equal the payload written so far |
| Mpegh.MpeghReader.PayloadFinished | libraries/extractor/src/main/java/androidx/media3/extractor/ts/MpeghReader.java:175-187 | the data scratch buffer is rewound to 0 and the packet is acted on from its whole contents, with the effect `Acted` states on the stream fields and the records `PacketEvents` gives appended to the output; success returns to header reading, a failure stays in payload reading |
| Mpegh.MpeghReader.ActOnPacket | libraries/extractor/src/main/java/androidx/media3/extractor/ts/MpeghReader.java:177-184 | the effect of the packet-type switch, as `Acted`: CONFIG decodes the payload and, on success, sets rate, frame length, label and `configFound`, failing with ParserError and changing nothing otherwise; AUDIO_TRUNCATION sets the truncation; FRAME clears `rapPending` when a configuration was decoded, moves `timeUs` to the pending timestamp after a gap or advances it by one frame otherwise, resets `dataPending`, `configFound`, truncation and `frameBytes`, and starts a new access unit; other types change nothing. The output grows by `PacketEvents`: a format when a decoded CONFIG carries a new label, one metadata record with the pre-update timestamp, `configFound` as key flag and the frame's byte count for FRAME, nothing otherwise |
| Mpegh.MpeghReader.ContinueRead | libraries/extractor/src/main/java/androidx/media3/extractor/ts/MpeghReader.java:208-214 | exactly `min(source bytes left, targetLength - target position)` bytes are copied into the target at its position, both positions advance by that count, the target position never passes `targetLength`, and the result is true exactly when it reaches it |
| Mpegh.MpeghReader.CopyData | libraries/extractor/src/main/java/androidx/media3/extractor/ts/MpeghReader.java:224-231 | the same count of bytes is appended after the target position, the target after them is untouched, and the source position does not change |
| Mpegh.MpeghReader.SkipToNextSync | libraries/extractor/src/main/java/androidx/media3/extractor/ts/MpeghReader.java:240-262 | no random access indicator: false, position at the limit; indicator and alignment: true, nothing moves; otherwise the outcome is that of `FirstSync` over the bytes from the position to the limit: no match gives false, position at the limit and the accumulator over all bytes; a match gives true, the position 3 bytes before the byte after the match and `syncBytes` 0; if that rewind would go before index 0 it fails with IllegalArgument |
| Mpegh.MpeghReader.ParseHeader | libraries/extractor/src/main/java/androidx/media3/extractor/ts/MpeghReader.java:268-286 | the header buffer position is 0; an unparseable header fails with ParserError and leaves the header, the counters, `headerDataFinished`, the payload so far and the data scratch buffer (array, position, limit) as they were; a parsed header is stored, `payloadBytesRead` becomes 0, `frameBytes` grows by `packetLength + headerLength`, and for CONFIG and AUDIO_TRUNCATION the data buffer is positioned at 0 with limit `packetLength`, while for other types it is left as it was |
| Mpegh.MpeghReader.MaybeAdjustHeaderScratchBuffer | libraries/extractor/src/main/java/androidx/media3/extractor/ts/MpeghReader.java:289-302 | only when a header was parsed and the position is positive: the bytes after the position move, in order, to the front, the position becomes their count and `headerDataFinished` is cleared; otherwise nothing changes |
| Mpegh.MpeghReader.MaybeCopyToDataScratchBuffer | libraries/extractor/src/main/java/androidx/media3/extractor/ts/MpeghReader.java:310-320 | for CONFIG and AUDIO_TRUNCATION the data buffer's contents become the payload staged so far followed by exactly the bytes the following write will output; for other types nothing changes |
| Mpegh.MpeghReader.StageHeaderRest | libraries/extractor/src/main/java/androidx/media3/extractor/ts/MpeghReader.java:314-316 | the payload bytes left in the header buffer are appended to the staged payload |
| Mpegh.MpeghReader.WriteSampleData | libraries/extractor/src/main/java/androidx/media3/extractor/ts/MpeghReader.java:327-340 | the payload bytes left in the header buffer (a write skipped when it is used up) then those of the slice are output, never past `packetLength`; `payloadBytesRead` grows by their count and stays at most `packetLength`; if it stays short, the slice is drained |
| Mpegh.MpeghReader.WriteHeaderRest | libraries/extractor/src/main/java/androidx/media3/extractor/ts/MpeghReader.java:330-335 | the first write: the bytes left in the header buffer, up to the packet length, are output and counted, unless the buffer is used up |
| Mpegh.MpeghReader.WritePayloadPiece | libraries/extractor/src/main/java/androidx/media3/extractor/ts/MpeghReader.java:337-339 | one write: the bytes at the source position are output and counted as payload read |
| Mpegh.MpeghReader.SampleDataOut | libraries/extractor/src/main/java/androidx/media3/extractor/ts/MpeghReader.java:167 | `TrackOutput.sampleData`: the bytes at the source position are logged and the source advances past them |
| Mpegh.MpeghReader.ParseConfig | libraries/extractor/src/main/java/androidx/media3/extractor/ts/MpeghReader.java:349-379 | an undecodable configuration fails with ParserError and changes nothing; a decoded one sets rate, frame length and `configFound`, and a format is output exactly when the packet label differs from the last declared one, which then becomes the label |
| Mpegh.MpeghReader.FinalizeFrame | libraries/extractor/src/main/java/androidx/media3/extractor/ts/MpeghReader.java:382-402 | one metadata record whose size is the count of bytes output since the access unit began and whose key flag is `configFound`, which also clears `rapPending`; the record carries the pre-update timestamp; after a gap `timeUs` becomes `timeUsPending`; `configFound`, truncation and `frameBytes` are reset |
| SyncScan.FirstSyncIsFirst | libraries/extractor/src/main/java/androidx/media3/extractor/ts/MpeghReader.java:249-257 | the scan's answer is the first byte after which the sync predicate holds, and when it finds none the predicate holds after no byte (so there is none exactly when it holds after no byte) |
| SyncScan.FirstSyncAppend | libraries/extractor/src/main/java/androidx/media3/extractor/ts/MpeghReader.java:249-257 | scanning two runs of bytes in turn, the accumulator carried over (as `syncBytes` is from one slice to the next), finds the match one scan of their concatenation finds: the first run's match if it has one, otherwise the second run's, offset by the first run's length; in particular bytes after a match cannot change it |
| SyncScan.AccumulateAppend | libraries/extractor/src/main/java/androidx/media3/extractor/ts/MpeghReader.java:250-251 | shifting in two runs of bytes in turn equals shifting in their concatenation |
| SyncScan.AccumulateKeepsLastThree | libraries/extractor/src/main/java/androidx/media3/extractor/ts/MpeghReader.java:250-251 | the low 24 bits of the accumulator are the last three bytes read, big-endian |
| SyncScan.SyncWordEndsAt | libraries/extractor/src/main/java/androidx/media3/extractor/ts/MpeghReader.java:252-253 | when the sync test reads only the low 24 bits of the word (`LowBitsSync`, a property of `MpeghUtil.isSyncWord` assumed here), a match completed by a byte with two bytes of the slice before it is a sync word made of that byte and the two before it, so the rewind by `MHAS_SYNC_WORD_LENGTH` lands on its first byte |
| SyncScan.SyncSplitAcrossSlices | libraries/extractor/src/main/java/androidx/media3/extractor/ts/MpeghReader.java:249-254 | for a sync test on the low 24 bits only: when the scan of a slice, with the accumulator carried over from the earlier slice, first matches at its byte 0 or 1, the word is the last two (resp. last one) bytes of the earlier slice followed by this slice's bytes up to the match, so the rewind by `MHAS_SYNC_WORD_LENGTH` from after the match lands before the slice's first byte |
| SyncScan.ShiftInLowBytes | libraries/extractor/src/main/java/androidx/media3/extractor/ts/MpeghReader.java:250-251 | after a shift by 8 and or-ing in a byte, the low 8, 16 and 24 bits are the new byte under the old low 0, 8 and 16 bits |
| SyncScan.ShiftInValue | libraries/extractor/src/main/java/androidx/media3/extractor/ts/MpeghReader.java:250-251 | the 32-bit shift drops the top byte of the accumulator |
| Buffers.ParsableByteArray.Wrap | libraries/extractor/src/main/java/androidx/media3/extractor/ts/MpeghReader.java:91 | `new ParsableByteArray(byte[])`: a cursor over the given array, position 0, limit its length |
| Buffers.ParsableByteArray.Empty | libraries/extractor/src/main/java/androidx/media3/extractor/ts/MpeghReader.java:92 | `new ParsableByteArray()`: a cursor over a new empty array, position and limit 0 |
| Buffers.ArrayCopy | libraries/extractor/src/main/java/androidx/media3/extractor/ts/MpeghReader.java:293-298 | `System.arraycopy`: the destination is its old contents with the source range written over it from the destination index, all read before any write, so an overlapping move on one array is exact |
| Buffers.ParsableByteArray.EnsureCapacity | libraries/extractor/src/main/java/androidx/media3/extractor/ts/MpeghReader.java:281 | the backing array is at least the asked size, its old contents are kept, and position and limit do not change |

## Left out

- `ParsableByteArray`, `TrackOutput`, `ExtractorOutput` and `MpeghUtil` are not part of this model.
  - The reader's use of `ParsableByteArray` is modelled in `buffers.dfy`.
  - `TrackOutput` is a ghost log of the events the reader sends.
  - `createTracks` only records that an output is bound. Track and format ids are not modelled.
  - The `MpeghUtil` parsers (`isSyncWord`, `parseMhasPacketHeader`, `parseMpegh3daConfig`, `parseAudioTruncationInfo`) are functions given to the reader. Their only assumed property is that a header's length fits the 15-byte header buffer. `SyncScan.SyncWordEndsAt` further assumes, as its hypothesis `LowBitsSync`, that `isSyncWord` reads only the low 24 bits of the word.
  - The constants are assumed from those files: `MAX_MHAS_PACKET_HEADER_SIZE` = 15, `MHAS_SYNC_WORD_LENGTH` = 3, and the `C` sentinels.
  - Each parser sees the whole backing array as bytes, not a `ParsableBitArray`.
- Floating-point timing is not modelled.
  - `timeUs` and `timeUsPending` are doubles in the source. Here they are integers.
  - `advanceTimeUs`, a function given to the reader, stands only for `timeUs += sampleDurationUs` (line 396) with the frame-duration arithmetic of lines 388-389.
  - The `Math.round` of line 391 is dropped: `FinalizeFrame` puts `timeUs` itself in the metadata record. Since `timeUs` is an integer here, the fractional microseconds the source's double accumulates from frame to frame are lost as well.
  - Only the routing of timestamps is stated.
- The `Format` object is reduced to its label and sample rate.
  - The codec string (`"mhm1"` with the profile level in hex) and the initialization data are not modelled.
- `packetFinished` is a no-op and is not modelled.
- The Java `int` width of `payloadBytesRead` and `frameBytes` is not modelled: they are unbounded naturals.
  - `syncBytes` keeps the bits of a Java `int` as an unsigned value. The shift wraps at 32 bits, which is what the sync predicate sees.
- The flags bitmask is reduced to the two bits the reader tests (`PesFlags`).
- A `ParserException` is `Fail(ParserError)`, and `checkStateNotNull` failing is `Fail(IllegalState)`.
  - When a sync word began in an earlier slice, its match is found within the first two bytes of the slice, and the rewind by `MHAS_SYNC_WORD_LENGTH` moves before the slice's first byte (`SyncScan.SyncSplitAcrossSlices`). `setPosition` fails only when the new position is below 0, that is when the match is at backing-array index 0 or 1; this is `Fail(IllegalArgument)`. Otherwise the rewind succeeds and header reading starts on bytes of the backing array that precede the slice: with a slice starting at index 5 whose first byte completes the word, the position becomes 3. The model keeps this behaviour as the code has it.
  - In the source these are exceptions that leave the fields as they were at the throw. The model keeps exactly those fields.
- Mpegh.MpeghReader.Consume: states drainage, failure, termination, growth of the log and the drop of slices without the random access indicator. It does not state the exact output as a function of the slice. The per-state steps it is built from (`SyncStep`, `HeaderStep`, `PayloadStep`) state each pass's effect, and the invariant ties the log to `frameBytes` and to the staged payload.
- Mpegh.MpeghReader.Step: states the invariant and the progress of one pass, not its output; for the payload case it calls `PayloadProgress`, which states only that progress, while `PayloadStep` (which `PayloadProgress` calls) states the pass's full effect.
- Invariance under re-chunking of the whole stream is not proved. Only the sync scan is shown to give the same match whether its bytes arrive in one slice or two (`SyncScan.FirstSyncAppend`).
- Two points of the code's behaviour, modelled as written:
  - Metadata is emitted for every completed FRAME packet, also while `rapPending` is set, with the key flag clear when no CONFIG preceded it; `rapPending` only decides whether a later gap sets `dataPending`.
  - Slices without the random access indicator are dropped only while finding sync, whatever `rapPending` is; once in sync, such a slice is consumed normally.
