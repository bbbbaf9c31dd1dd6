# Verification of Evisum's data paths

Evisum shows what a machine is doing, now and in the past. The daemon Enigmatic samples the system and
appends small typed records to a log; old logs are cut into blocks and compressed with LZ4; the engine
replays logs into snapshots, of now or of any earlier moment; the user interface keeps tables, colours
and a history slider on top. This project models the parts of that path where a small slip would show
wrong data, and proves what they promise.

- **LZ4** (`Bytes`, `Lz4Format`, `Lz4Lenient`, `Lz4Accept`, `Lz4Count`, `Lz4Copy`, `Lz4Search`,
  `Lz4Encoder`, `Lz4Decoder`, `Lz4RoundTrip`). `Lz4Format` says what a block means: a decoder that copies one byte at a time, in the terms of the LZ4 Block Format
  with its section "Parsing restrictions". The encoder, as the repository calls it (16-bit table, no
  dictionary, no output limit), is proved against it for every input below 65547 bytes and every hash
  function; `Lz4Search` says which sequences it chooses, and what it never misses. The decoder, with its over-copies, its tables for short offsets, its two-stage shortcut and
  the fast loop of x86 builds, is proved to refine the same byte-at-a-time decoder with the two liberties
  that the C code takes in what a block means (`Lz4Lenient`), and to accept exactly the blocks that
  `Lz4Accept` describes, the same ones with and without the fast loop.
- **Archives** (`Manifest`, `Archive`). A file as a row of blocks with a textual manifest beside it:
  what is printed parses back, and what is compressed comes back.
- **The event log** (`Records`, `Deltas`, `LogWriter`, `Structures`, `Processes`, `Devices`, `Replay`,
  `Snapshots`, `Client`, `Memory`, `UniqueIds`, `Network`, `NetworkPoll`, `NetworkMonitor`). The writers, the reader's record loop, the process table as a map from pids (`ProcessTable`), time travel by
  replaying a prefix, the monitors of memory and of network interfaces replicated from the daemon through
  the bytes of the log to the client, and an archived log read back up to a moment (`ArchivedHistory`).
- **History in the user interface** (`HistoryProtocol`, `HistoryBounds`). Request, debounce timer and
  worker under every interleaving; the stretch of logs without a gap.
- **Smaller cores** (`Colors`, `Forest`, `ColumnOrder`, `Cache`). Double hashing over 1021 slots, the
  process forest, the order of columns, and the cache of row objects.

Code that changes things step by step is modelled by methods with loops over arrays and fields, each
proved against a function or a predicate on values; what the program promises is then proved of those.
The machine is 64-bit and little-endian; bytes are integers from 0 to 255, and arithmetic wraps where
the C types wrap.

## What the proofs found

- `LZ4_decompress_safe` takes three liberties with the format. An offset of zero, which the format
  forbids, is a run of zeros, and lengths are kept in 32 bits: these two change what a block means, for
  exactly the blocks that have one of them and still have a meaning (`Lz4Lenient.DecodeAgrees`;
  `ZeroOffsetAccepted` and `LongLengthAccepted` are such blocks). And the end-of-block rules are
  checked only against the size of the output and the end of the input, and not at all for a short
  sequence that is copied as 16 and 18 bytes. So a block that breaks them may be accepted into some
  outputs only (`Lz4Accept.LateMatchTaken`), into every one that holds its data (`NoLastTaken`), or
  into none (`NeverTaken`); the size from which on it is accepted lies between the length of its data
  and 32 more (`OneThreshold`). `Lz4Accept.OutcomeDiffers` says when a caller sees a difference from the
  format. The fast loop makes none.
- With an output of size zero the decoder accepts only the block `[0]`, though `[5]`, say, conforms and
  also stands for no data (`Lz4Lenient.TwoBlocksForNothing`). The encoder writes `[0]`.
- The archive writer loses its way for exactly the files of more than 0x7FFFC000 bytes: the sum of offset
  and block size overflows an `int` (`Archive.ChunksFit`, `Archive.LeavesFile`).
- The memory monitor sends whole pages of an unsigned difference, so a client lags behind by less than
  a page for every change until the next refresh; `Memory.LagInvariant` says by how much, and
  `Memory.GrowthLost` is a poll that is lost.
- `enigmatic_monitor_memory` never sets `msg.number` for fields that are not of a video card. The
  value goes to the log and no reader uses it; here it is a parameter of the sample.
- `evisum_engine_history_contiguous_bounds_since_get` stops at the wrong log exactly when its end plus
  120 leaves 32 bits (`HistoryBounds.StopsTooEarly`), and returns an end that is not after the start
  exactly when `since`, or the start of every log that it merged, is 2^32 - 1
  (`HistoryBounds.EndsBeforeStart`).
- Adding processes, or refreshing an empty list, keeps pids distinct only if the batch does
  (`Processes.TwiceTheSame`); the lemmas say exactly when.
- A refresh of a list of cores, sensors or batteries that is not empty changes nothing: the code copies
  the old values into the object that it has read, and frees it.
- A refresh corrects the totals of interfaces that a client has, but neither adds nor removes any. So a
  client has to begin with an empty list, as `NetworkMonitor.Replication` supposes, or to be in step.

## Model

| member | source | states |
|---|---|---|
| `Lz4Format.CopyMatchUnique` | src/bin/enigmatic/lz4/lz4.c:1978-2059 | Continuing the output so that every new byte equals the one `offset` back is possible in one way only, the match copied one byte at a time; this is the test that every fast copy has to pass |
| `Lz4Format.DecodeSequence` | src/bin/enigmatic/lz4/lz4.c:963-1078 | A sequence laid out as the encoder lays it out (token, length bytes, literals, offset, length bytes) is one step of the byte-at-a-time decoder and yields its literals and then its match, for all lengths below 2^32 |
| `Lz4Format.PassBody` | src/bin/enigmatic/lz4/lz4.c:870-1144 | Decoding passes over any number of laid-out sequences, with the data they stand for, and the end-of-block rules are decided by what follows |
| `Lz4Format.DecodeBlock` | src/bin/enigmatic/lz4/lz4.c:793-1181 | Whatever sequences an encoder picks, if their offsets lie in 1..65535 and in the past and their matches keep away from the end, the block decodes to the data they stand for and obeys the parsing restrictions |
| `Lz4Format.EncodeBlockBound` | src/bin/enigmatic/lz4/lz4.h:171 | No block of such sequences is longer than n + n/255 + 2, summed over all sequences with their length bytes |
| `Lz4Count.FirstDifference` | src/bin/enigmatic/lz4/lz4.c:467-477 | For two different words of the same width, the trailing zero bits of their exclusive or, divided by eight, are the number of bytes from the lowest address on which they agree |
| `Lz4Count.Count` | src/bin/enigmatic/lz4/lz4.c:539-563 | Comparing eight, four, two and one bytes at a time gives the length of the longest common prefix, cut at the limit |
| `Lz4Count.CountRest` | src/bin/enigmatic/lz4/lz4.c:559-562 | The last one to seven bytes are counted right too |
| `Lz4Lenient.DecodeAgrees` | src/bin/enigmatic/lz4/lz4.c:1657-2072 | Of the two meanings of a block, that of the decoder and that of the format: they differ (in the data, or in whether there are any) if and only if the block has an offset of zero or a length beyond 32 bits before any other problem and has a meaning for the decoder. Which blocks the decoder accepts is another matter, see `Lz4Accept` |
| `Lz4Lenient.ConformingIsAcceptable` | src/bin/enigmatic/lz4/lz4.c:2077-2083 | For a block without such an offset or length the two meanings are the same, and the end-of-block rules on the decoder's matches are those of the format; that others are accepted too is in `Lz4Accept` |
| `Lz4Lenient.ZeroOffsetAccepted` | src/bin/enigmatic/lz4/lz4.c:2026-2043 | Blocks of one literal, a match with an offset of zero and eight literals: forbidden by the format, and to the decoder a match of four zeros in a block that obeys the rules |
| `Lz4Lenient.LongLengthAccepted` | src/bin/enigmatic/lz4/lz4.c:1628-1649 | Fifteen literals whose length is written as any multiple of 2^32 more: too long by the format, and to the decoder just these fifteen in a block that obeys the rules |
| `Lz4Lenient.RefusedByBoth` | src/bin/enigmatic/lz4/lz4.c:1657-2072 | A block with an offset of zero that has no meaning for either, so the second half of that condition is needed |
| `Lz4Lenient.TwoBlocksForNothing` | src/bin/enigmatic/lz4/lz4.c:1698-1704 | `[0]` and `[5]` both stand for no data and conform, though with an output of size zero only the first is accepted |
| `Lz4Accept.RoomForLast` | src/bin/enigmatic/lz4/lz4.c:1906-1951 | In a block that obeys the end rules, while five bytes of data are to come so are six bytes of input |
| `Lz4Accept.FineStep` | src/bin/enigmatic/lz4/lz4.c:1847-2060 | A step of a block that keeps the end rules and whose data fit passes every check of the decoder, and what is left keeps them too |
| `Lz4Accept.FineIsTaken` | src/bin/enigmatic/lz4/lz4.c:1847-2060 | A block that obeys the end-of-block rules is accepted into every output that holds its data |
| `Lz4Accept.ConformingIsTaken` | src/bin/enigmatic/lz4/lz4.c:2077-2083 | So is, in particular, every block that conforms to the format |
| `Lz4Accept.OutcomeDiffers` | src/bin/enigmatic/lz4/lz4.c:2077-2083 | What a caller sees (the data, or that the block is refused) differs from what the format says if and only if the block is accepted and has an offset of zero or a length beyond 32 bits, or is refused though it has data by the format |
| `Lz4Accept.TakenFits` | src/bin/enigmatic/lz4/lz4.c:1847-2072 | What is accepted has a meaning for the decoder, and its data fit the output |
| `Lz4Accept.LargerTakes` | src/bin/enigmatic/lz4/lz4.c:1847-2060 | A larger output never refuses what a smaller one accepts |
| `Lz4Accept.OneThreshold` | src/bin/enigmatic/lz4/lz4.c:1847-2060 | A block that some output accepts is accepted from one size on and below it never; that size is at least the length of the data and at most 32 more |
| `Lz4Accept.LateMatchTaken` | src/bin/enigmatic/lz4/lz4.c:1906-1951 | A block whose match starts nine bytes before the end of its ten bytes of data: it does not conform, and is accepted into 13 bytes and more, and into no fewer |
| `Lz4Accept.NoLastTaken` | src/bin/enigmatic/lz4/lz4.c:1864-1893 | A block whose match runs to the end of its 32 bytes of data: it does not conform, and is accepted into 32 bytes and more |
| `Lz4Accept.NeverTaken` | src/bin/enigmatic/lz4/lz4.c:1906-1951 | A block with five bytes of data by the format that no output accepts |
| `Lz4Accept.ShortTailTaken` | src/bin/enigmatic/lz4/lz4.c:1968-1983 | A block with a long match length that only five bytes of input follow: accepted into 25 bytes and more, five beyond the end of its match |
| `Lz4Copy.WildCopyFromInput` | src/bin/enigmatic/lz4/lz4.c:361-371 | Literals copied in whole pieces of 8 (or 32) bytes are the literals, whatever is written past them, and neither buffer is left |
| `Lz4Search.LatestIs` | src/bin/enigmatic/lz4/lz4.c:673-698 | What the table offers for a hash is the position with that hash that was put there last, or zero if there is none |
| `Lz4Search.SearchTries` | src/bin/enigmatic/lz4/lz4.c:896-957 | A search that finds nothing has looked at all positions that the steps give, up to the end, and at none of them were the four bytes those at the position that the table offered then |
| `Lz4Search.ChosenLaws` | src/bin/enigmatic/lz4/lz4.c:863-1144 | Of every input, hash and acceleration: no match could be longer at either end, and literals are left over only within the last eleven bytes, for an input below 13 bytes, or after a whole search from the next position on that found nothing |
| `Lz4Search.ChosenMisses` | src/bin/enigmatic/lz4/lz4.c:1084-1144 | Of every input of at least 13 bytes, with every hash: where a match ends, four bytes that were there two bytes before are taken as the next match at once, and a run of five equal bytes after at most one literal; neither is left over |
| `Lz4Search.EqualBytes` | src/bin/enigmatic/lz4/lz4.c:863-1144 | With every hash, n >= 13 equal bytes become one literal, one match of n - 6 bytes at offset 1, and five literals |
| `Lz4Encoder.AgreeIsMatch` | src/bin/enigmatic/lz4/lz4.c:951-961 | Bytes that agree with earlier ones are what copying the match produces, also when the match overlaps itself |
| `Lz4Encoder.EmitSequence` | src/bin/enigmatic/lz4/lz4.c:990-1082 | Writing a sequence after the encoding of everything before `anchor` gives the encoding of everything before the end of the match, with the offset in range and the match away from the end |
| `Lz4Encoder.CountCovers` | src/bin/enigmatic/lz4/lz4.c:960-1037 | The counted match reaches at least to where a match was known before the start was moved back, so the main loop makes progress and stored positions stay behind |
| `Lz4Encoder.PutTail` | src/bin/enigmatic/lz4/lz4.c:975-980 | Writes exactly the bytes that extend a literal length |
| `Lz4Encoder.PutMatchTail` | src/bin/enigmatic/lz4/lz4.c:1065-1075 | Writing 255s four at a time and stepping back leaves exactly the bytes that extend a match length, and touches at most three bytes more |
| `Lz4Encoder.PutLiterals` | src/bin/enigmatic/lz4/lz4.c:963-988 | Token, length and literals of a sequence, with the over-copy inside the destination |
| `Lz4Encoder.PutMatch` | src/bin/enigmatic/lz4/lz4.c:1006-1078 | Completes the token and writes offset and length: the bytes after the sequence's start are exactly the encoded sequence |
| `Lz4Encoder.FindMatch` | src/bin/enigmatic/lz4/lz4.c:896-957 | For any hash and acceleration: the positions it looks at start at the current one, go on by one, and then in steps that grow by one every 64 looks; at each but the last, the four bytes differ from those at what the table offers then; a match is found at the last exactly when there is room for another look, at the position that the table offers; all of them are in the table afterwards, unshortened |
| `Lz4Encoder.Put` | src/bin/enigmatic/lz4/lz4.c:673-698 | Storing a position below 65536 in 16 bits loses nothing and changes no other slot: every slot holds the position that was put there last |
| `Lz4Encoder.CatchUp` | src/bin/enigmatic/lz4/lz4.c:959-961 | Moving back over equal bytes keeps the offset, extends the agreement to the new start, and stops only at the anchor, at the start of the data or at different bytes |
| `Lz4Encoder.ProbeNext` | src/bin/enigmatic/lz4/lz4.c:1087-1138 | After a match, the candidate is what the table holds once the position two back is in it; the answer is whether the same four bytes are there; both positions go to the table unshortened |
| `Lz4Encoder.PutSequence` | src/bin/enigmatic/lz4/lz4.c:990-1082 | Encodes the literals and the match at the candidate, which ends five bytes before the end or where the bytes differ, and stays within the bound |
| `Lz4Encoder.StartSequence` | src/bin/enigmatic/lz4/lz4.c:875-988 | Finds the next match and writes the literals before it, or leaves the output alone |
| `Lz4Encoder.NextSequence` | src/bin/enigmatic/lz4/lz4.c:870-1082 | One turn of the main loop adds exactly one sequence; with a known match it has no literals and that match's offset, and without any match nothing changes |
| `Lz4Encoder.LastFits` | src/bin/enigmatic/lz4/lz4.c:1146-1172 | There is always room for the last literals, and they complete the block |
| `Lz4Encoder.CompressBody` | src/bin/enigmatic/lz4/lz4.c:863-1144 | The main loop ends, has written the encoding of everything before `anchor`, and has chosen the sequences of `Lz4Search.Chosen` |
| `Lz4Encoder.PutLast` | src/bin/enigmatic/lz4/lz4.c:1146-1172 | The last literals, with exactly the space that is left |
| `Lz4Encoder.CompressGeneric` | src/bin/enigmatic/lz4/lz4.c:793-1181 | The output is the encoding of proper sequences and last literals that together stand for the input, and these are the ones that `Lz4Search.Chosen` gives for the hash and the acceleration |
| `Lz4Encoder.Compress` | src/bin/enigmatic/lz4/lz4.c:1184-1191 | For every input below 65547 bytes, every hash function and every acceleration: the block decodes to the input byte for byte, obeys the parsing restrictions, is not empty, has at most n + n/255 + 2 bytes and consists of the chosen sequences; for no input it is `[0]`; for n >= 13 equal bytes it has 10 + ceil((n - 24) / 255) bytes, or 10 if n < 25, and so at most n/255 + 12 |
| `Lz4Encoder.CompressDefault` | src/bin/enigmatic/lz4/lz4.c:1271-1274 | The same for the real hash |
| `Lz4Decoder.Chain` | src/bin/enigmatic/lz4/lz4.c:1978-2059 | In periodic data every byte equals the one any number of periods back |
| `Lz4Decoder.PeriodExtends` | src/bin/enigmatic/lz4/lz4.c:1978-2059 | Copying from a multiple of the offset back continues the period of the offset |
| `Lz4Decoder.Tables` | src/bin/enigmatic/lz4/lz4.c:373-374 | For offsets 1 to 7 the two tables keep the copying distance a multiple of the offset, at least 4 and then at least 8, so that later copies of 8 bytes do not overlap |
| `Lz4Decoder.WildCopy8` | src/bin/enigmatic/lz4/lz4.c:361-371 | Copies of 8 bytes inside the output repeat what lies the given distance back; the bytes before are kept and the output is not left |
| `Lz4Decoder.First8` | src/bin/enigmatic/lz4/lz4.c:2027-2043 | The first eight bytes of a match are right for every offset, and the position to go on from is a whole number of periods back |
| `Lz4Decoder.CopyRest` | src/bin/enigmatic/lz4/lz4.c:2045-2057 | The rest of a match is right, near the end of the output too; it is refused exactly when it would reach the last five bytes |
| `Lz4Decoder.PutMatch` | src/bin/enigmatic/lz4/lz4.c:2011-2059 | The whole match equals the one copied byte by byte, and is a run of zeros for offset 0; refused exactly when it reaches the last five bytes |
| `Lz4Decoder.ZerosDone` | src/bin/enigmatic/lz4/lz4.c:2026-2057 | With an offset of zero, the four cleared bytes are copied on to the end of the match |
| `Lz4Decoder.WildCopy32` | src/bin/enigmatic/lz4/lz4.c:411-423 | Two times sixteen bytes at a time repeat what lies at least 16 bytes back |
| `Lz4Decoder.Fill8` | src/bin/enigmatic/lz4/lz4.c:435-461 | A pattern of eight bytes with a period of 1, 2 or 4 continues the output with that period |
| `Lz4Decoder.CopyUsingOffset` | src/bin/enigmatic/lz4/lz4.c:425-461 | The fast loop's copy for offsets below 16 equals the match copied byte by byte, or zeros |
| `Lz4Decoder.NoExactWrap` | src/bin/enigmatic/lz4/lz4.c:1628-1649 | A length that runs into the end of the input never wraps to zero in 32 bits |
| `Lz4Decoder.ReadVariableLength` | src/bin/enigmatic/lz4/lz4.c:1628-1649 | The sum is the sum of the length bytes modulo 2^32; each of the two errors has its exact cause |
| `Lz4Decoder.ReadLiteralLength` | src/bin/enigmatic/lz4/lz4.c:1867-1905 | The literal length is the one written, in 32 bits, or the literals do not fit the input in any case |
| `Lz4Decoder.SafeLiterals` | src/bin/enigmatic/lz4/lz4.c:1902-1967 | Literals, last ones or not: the output then ends with them, and failure means that the step is one that the decoder does not pass |
| `Lz4Decoder.ReadMatchLength` | src/bin/enigmatic/lz4/lz4.c:1970-1983 | The match length is the one written, in 32 bits; it is refused exactly when it ends nowhere or fewer than five bytes of input follow it |
| `Lz4Decoder.PutMatchAt` | src/bin/enigmatic/lz4/lz4.c:1968-2059 | Offset, length and match of a step: put if and only if the offset lies in the data, the length bytes keep away from the end of the input and the match from the last five bytes of the output |
| `Lz4Decoder.Shortcut` | src/bin/enigmatic/lz4/lz4.c:1855-1900 | Copying 16 bytes for the literals and 18 for the match, whatever is needed of them, is the step of the byte-at-a-time decoder, and passes without a look at the end of the match |
| `Lz4Decoder.MatchDecides` | src/bin/enigmatic/lz4/lz4.c:1857-2059 | Once its literals have passed, a step passes if and only if its length bytes do and its match either takes the shortcut or keeps away from the last five bytes of the output |
| `Lz4Decoder.QuickFits` | src/bin/enigmatic/lz4/lz4.c:1716-1844 | At least 64 bytes before the end of the output the match of the shortcut fits in any case; this is why the two loops accept the same blocks |
| `Lz4Decoder.DecodeSequence` | src/bin/enigmatic/lz4/lz4.c:1847-2060 | One turn of the safe loop is one step of the byte-at-a-time decoder, and fails if and only if that step does not pass |
| `Lz4Decoder.FastLiterals` | src/bin/enigmatic/lz4/lz4.c:1716-1761 | Literals in the fast loop, and when it hands over to the safe loop |
| `Lz4Decoder.FastMatchAt` | src/bin/enigmatic/lz4/lz4.c:1763-1843 | Matches in the fast loop, put if and only if they fit; while it goes on, at least 64 bytes of output are left |
| `Lz4Decoder.FastSequence` | src/bin/enigmatic/lz4/lz4.c:1716-1844 | One turn of the fast loop is one step of the byte-at-a-time decoder too, and fails on the very steps on which the safe loop fails |
| `Lz4Decoder.DecompressSafe` | src/bin/enigmatic/lz4/lz4.c:2077-2083 | Into an output that is not empty it accepts a block if and only if the block is `Taken`, the same with and without the fast loop, and so every block that keeps the end rules and whose data fit; into an empty one only `[0]`. The first r bytes of the output are then the block's meaning, which is the format's unless the block has an offset of zero or a length beyond 32 bits; no byte is written outside the output |
| `Lz4RoundTrip.RoundTrip` | src/bin/enigmatic/lz4/lz4.c:793-2083 | For every input below 65547 bytes, every hash function, every acceleration and both loops: decompressing what was compressed into a buffer of just the input's length returns that length and the input |
| `Manifest.ScanToken` | src/bin/enigmatic/enigmatic_log.c:351-454 | A printed pair `size-csize` scans back to the same two numbers and nothing is left over |
| `Manifest.EntryLooks` | src/bin/enigmatic/enigmatic_log.c:340-353 | The entry of a block of 16384 bytes that was compressed to 75 is `16384-75,` |
| `Manifest.SpaceLooks` | src/bin/enigmatic/enigmatic_log.c:455-465 | Reading a manifest lets white space pass before a number |
| `Manifest.SignLooks` | src/bin/enigmatic/enigmatic_log.c:455-465 | And a sign |
| `Manifest.RestLooks` | src/bin/enigmatic/enigmatic_log.c:455-465 | But nothing after the second number |
| `Manifest.NextTokenOf` | src/bin/enigmatic/enigmatic_log.c:446-482 | The first token of a manifest is its first entry and the rest is the rest |
| `Manifest.ContentsOf` | src/bin/enigmatic/enigmatic_log.c:374-417 | Reading a manifest file back changes nothing |
| `Archive.ChunksFit` | src/bin/enigmatic/enigmatic_log.c:340-345 | For every length, every block lies inside the file and the offset moves on if and only if the file has at most 0x7FFFC000 bytes; beyond, the sum of offset and block size leaves the `int` |
| `Archive.LeavesFile` | src/bin/enigmatic/enigmatic_log.c:340-345 | With one byte more than that, the block at the last offset leaves the file and the next offset is negative |
| `Archive.Compress` | src/bin/enigmatic/enigmatic_log.c:302-355 | Every block stands for its piece of the file, which is 16384 bytes or the rest, and is what the real hash makes of it; the manifest lists them; the sum of the blocks stays within the allocation |
| `Archive.AheadToken` | src/bin/enigmatic/enigmatic_log.c:446-483 | While an archive is read back, the next token, block and piece belong together |
| `Archive.UnpackedStep` | src/bin/enigmatic/enigmatic_log.c:446-483 | An accepted block extends what the archive is known to unpack to |
| `Archive.DecompressBlock` | src/bin/enigmatic/enigmatic_log.c:473-478 | A block of a known size is accepted if it is sound, and what is accepted is what the byte-at-a-time decoder gives |
| `Archive.Decompress` | src/bin/enigmatic/enigmatic_log.c:419-501 | Any archive: what is accepted consists of blocks that stand for their part of the result, in order. An archive written by the compressor comes back as the file |
| `Archive.RoundTrip` | src/bin/enigmatic/enigmatic_log.c:302-501 | Compressing any non-empty file of at most 0x7FFFC000 bytes and decompressing the archive gives the file |
| `Records.AfterChangeMoves` | src/bin/enigmatic/client/enigmatic_client.c:1107-1192 | How many bytes a modification takes depends only on the payload and its types, not on where it lies or on what the client knows |
| `Records.RecordStarts` | src/bin/enigmatic/Events.h:110-121 | Event and time, and of a message type, object type, number and width, lie one after the other in four bytes each, the least significant first, before the payload |
| `Records.OneString` | src/bin/enigmatic/client/enigmatic_client.c:216-234 | The payload of a text has its only zero at the end |
| `Records.RecordRoundTrip` | src/bin/enigmatic/client/enigmatic_client.c:1561-1588 | A record reads back as itself wherever it lies, and the next one starts right behind it |
| `Records.EncodeAppend` | src/bin/enigmatic/enigmatic_log.c:166-189 | Appending records to a log appends their bytes |
| `Records.LogRoundTrip` | src/bin/enigmatic/client/enigmatic_client.c:1556-1589 | Parsing the bytes of any well-formed records gives exactly those records and ends with the buffer |
| `Deltas.SignedRoundTrip` | src/bin/enigmatic/enigmatic_log.c:574-611 | Two's complement of any width gives every value of its range back |
| `Deltas.DiffRoundTrip` | src/bin/enigmatic/client/enigmatic_client.c:155-207 | Every 64-bit difference survives the choice among 8, 16, 32 and 64 bits |
| `Deltas.DiffWellFormed` | src/bin/enigmatic/enigmatic_log.c:574-611 | What the difference writer writes has the length that the reader expects |
| `Deltas.Narrowest` | src/bin/enigmatic/enigmatic_log.c:574-611 | The width is the least of 1, 2, 4 and 8 bytes that hold the difference in two's complement |
| `LogWriter.Log.Header` | src/bin/enigmatic/enigmatic_log.c:21-51 | Appends event and time, for a broadcast the interval and the magic numbers, and the message if its type is one of the five; so it is a complete broadcast, bare or objectless record, or the start of one |
| `LogWriter.Log.ObjWrite` | src/bin/enigmatic/enigmatic_log.c:105-127 | Appends one object message |
| `LogWriter.Log.ListWrite` | src/bin/enigmatic/enigmatic_log.c:129-164 | Appends one message with all objects in order; nothing for an empty list |
| `LogWriter.Log.Diff` | src/bin/enigmatic/enigmatic_log.c:574-611 | Appends one modification with the narrowest width |
| `LogWriter.RecordsWellFormed` | src/bin/enigmatic/enigmatic_log.c:105-189 | What a writer writes is well formed if the object is of the size and number that its message announces, or the difference is of a known field |
| `LogWriter.ConcatSize` | src/bin/enigmatic/enigmatic_log.c:129-164 | Objects of one size make a payload of their number times that size |
| `LogWriter.CallsReadBack` | src/bin/enigmatic/enigmatic_log.c:21-189 | Whatever sequence of writer calls: parsing the bytes of their records gives exactly those records, and ends with the buffer |
| `LogWriter.Log.Play` | src/bin/enigmatic/enigmatic_log.c:21-189 | Any run of writer calls, over any number of polls, leaves a buffer that parses back to the records of the calls |
| `Processes.ModNumberFrame` | src/bin/enigmatic/client/enigmatic_client.c:324-399 | A numeric modification touches the bytes of the named field and no others; the pid stays |
| `Processes.ModNumberValue` | src/bin/enigmatic/client/enigmatic_client.c:324-396 | A whole-number field then holds the old value plus the change (times 4096 for memory sizes), modulo its width; a flag tells whether the sum is different from zero; `cpu_usage` holds the sum of the double |
| `Processes.ModTextFrame` | src/bin/enigmatic/client/enigmatic_client.c:300-323 | A text modification touches the bytes of its field and no others, and the pid stays |
| `Processes.ModTextValue` | src/bin/enigmatic/client/enigmatic_client.c:209-214 | The field then holds the text, cut to leave room for the zero byte that ends it; read back as a C string it is the text as far as it fits |
| `Processes.UpsertKeepsPlaces` | src/bin/enigmatic/client/enigmatic_client.c:244-275 | A refresh of a list that is not empty keeps every process in its place and appends the new ones |
| `Processes.DeleteJoin` | src/bin/enigmatic/client/enigmatic_client.c:392-412 | Deletion works on every process by itself and keeps the order |
| `Processes.RefreshTable` | src/bin/enigmatic/client/enigmatic_client.c:249-284 | As a map from pids, a refresh inserts or replaces every entry; pids stay distinct if and only if the list was not empty or the batch has distinct pids |
| `Processes.AddTable` | src/bin/enigmatic/client/enigmatic_client.c:286-297 | As a map, an addition inserts every entry, later ones over earlier ones |
| `Processes.AddDistinct` | src/bin/enigmatic/client/enigmatic_client.c:286-297 | After an addition pids are distinct if and only if they were, and those of the batch are distinct and new |
| `Processes.TwiceTheSame` | src/bin/enigmatic/client/enigmatic_client.c:249-297 | A process that is added twice, or comes twice in the first refresh, is in the list twice |
| `Processes.DeleteTable` | src/bin/enigmatic/client/enigmatic_client.c:393-411 | As a map, a deletion removes the pid |
| `Processes.ModifyTable` | src/bin/enigmatic/client/enigmatic_client.c:299-391 | As a map, a modification changes the entry of its pid and no other |
| `ProcessTable.ApplyTable` | src/bin/enigmatic/client/enigmatic_client.c:236-417 | One record of any kind: the list does to the table of pids what the record says, and pids stay distinct if and only if a first refresh or an addition brings fresh ones |
| `ProcessTable.FoldTable` | src/bin/enigmatic/client/enigmatic_client.c:236-417 | Any run of records: no two processes ever share a pid if and only if all batches are fresh, and then the list is, entry for entry, the map from pids that the records make |
| `ProcessTable.TextShown` | src/bin/enigmatic/client/enigmatic_client.c:302-327 | A record with a new text: the first process with the pid shows it as far as it fits, and no other process changes |
| `Devices.AddedValue` | src/bin/enigmatic/client/enigmatic_client.c:932-1034 | A whole-number field of a core, battery, interface or file system then holds the old value plus the change modulo its width; no other byte changes and the id stays |
| `Devices.CopiedAllAt` | src/bin/enigmatic/client/enigmatic_client.c:419-618 | After a refresh of a list that is not empty every interface and file system has the totals of the last object with its id in the message, if there is one; no other byte changes |
| `Devices.RemovedAre` | src/bin/enigmatic/client/enigmatic_client.c:419-1034 | Deletion removes exactly the objects with the id |
| `Devices.MessageSized` | src/bin/enigmatic/client/enigmatic_client.c:419-1034 | Messages leave only objects of the size of their structures in the lists |
| `Devices.ChangeSized` | src/bin/enigmatic/client/enigmatic_client.c:419-1034 | So do modifications |
| `Replay.ReadIsFold` | src/bin/enigmatic/client/enigmatic_client.c:1556-1589 | Reading the bytes of a log up to a time is folding its records before the first later one; without a limit the index ends at the length |
| `Replay.TimeTravel` | src/bin/enigmatic/client/enigmatic_client.c:1556-1567 | For a log with times that do not decrease, reading up to t > 0 folds exactly the records with time at most t |
| `Replay.TimeTravelContinues` | src/bin/enigmatic/client/enigmatic_client.c:1556-1567 | Reading up to t2 gives the state of reading up to t1 and then folding the records after t1 up to t2 |
| `Replay.FoldBounds` | src/bin/enigmatic/client/enigmatic_client.c:1253-1268 | After any replay the bounds run from where they began, or the first block end replayed, to the last block end replayed, whose time the snapshot has |
| `Replay.FoldSized` | src/bin/enigmatic/client/enigmatic_client.c:1556-1589 | No replay ever leaves an object of the wrong size in a list |
| `Snapshots.AdditionIs` | src/bin/enigmatic/client/enigmatic_client.c:521-619 | An addition appends to the list of its kind the objects of its payload, each its own piece of the bytes; the other lists stay |
| `Snapshots.FirstRefreshIs` | src/bin/enigmatic/client/enigmatic_client.c:534-546 | A first refresh makes the list of any of the five kinds just the objects of its payload |
| `Snapshots.LaterRefreshIs` | src/bin/enigmatic/client/enigmatic_client.c:945-971 | A later refresh of cores, sensors or batteries changes nothing |
| `Snapshots.TotalsRefreshIs` | src/bin/enigmatic/client/enigmatic_client.c:547-560 | A later refresh gives interfaces and file systems the totals of the last object with their number, if there is one, and changes no other byte |
| `Snapshots.DeletionIs` | src/bin/enigmatic/client/enigmatic_client.c:594-613 | A deletion takes exactly the objects with its number out of the list of its kind |
| `Snapshots.RemovedJoin` | src/bin/enigmatic/client/enigmatic_client.c:594-613 | Deletion works on every object by itself and keeps the order |
| `Snapshots.SensorValue` | src/bin/enigmatic/client/enigmatic_client.c:732-740 | The value of a sensor is then the sum of its value and the change, as 64 bits; no other byte changes |
| `Snapshots.BatteryValue` | src/bin/enigmatic/client/enigmatic_client.c:832-846 | The percentage of a battery is then the sum of the percentage and the change, as 32 bits; no other byte changes |
| `Snapshots.SensorRecordIs` | src/bin/enigmatic/client/enigmatic_client.c:732-740 | Exactly the sensors with the number change |
| `Snapshots.BatteryRecordIs` | src/bin/enigmatic/client/enigmatic_client.c:832-846 | Exactly the batteries with the number change; a whole number instead of a float counts as zero |
| `Snapshots.WholeRecordIs` | src/bin/enigmatic/client/enigmatic_client.c:581-592 | A whole-number field changes in exactly the objects of its kind with the number |
| `Snapshots.PowerIs` | src/bin/enigmatic/client/enigmatic_client.c:630-662 | The power state is the byte that a refresh or a modification carries, and nothing else changes |
| `Snapshots.LastRecordClears` | src/bin/enigmatic/client/enigmatic_client.c:1300-1305 | The last record of a log leaves no process and no device, keeps the power state, and is remembered |
| `Snapshots.EndForgetsLists` | src/bin/enigmatic/client/enigmatic_client.c:25-50 | Two clients that differ only in their lists are equal after any records that both get through and that contain a last record |
| `Snapshots.RefreshAfterEnd` | src/bin/enigmatic/client/enigmatic_client.c:1300-1305 | After the end of a log the first refresh of each of the five kinds makes its list exactly its batch |
| `Snapshots.FoldFlags` | src/bin/enigmatic/client/enigmatic_client.c:1270-1305 | After any replay the snapshot tells whether the log has ended since the last broadcast, and the interval of that broadcast |
| `Structures.MembersApart` | src/bin/enigmatic/system/machine.h:17-99 | No two members of a structure overlap |
| `Structures.CoreLayout` | src/bin/enigmatic/system/machine.h:17-27 | Size of a core and the places of percent, freq, temp and unique_id follow from the declared order, sizes and alignments |
| `Structures.SensorLayout` | src/bin/enigmatic/system/machine.h:62-76 | The same of a sensor's value and unique_id |
| `Structures.BatteryLayout` | src/bin/enigmatic/system/machine.h:78-93 | The same of a battery's charges, percentage and unique_id |
| `Structures.NetworkLayout` | src/bin/enigmatic/system/machine.h:95-107 | The same of an interface's totals and unique_id |
| `Structures.FileSystemLayout` | src/bin/enigmatic/system/file_systems.h:12-25 | The same of a file system's usage and unique_id |
| `Structures.ProcessLayout` | src/bin/enigmatic/system/process.h:62-102 | Every field of a process that can be modified lies where the declared order, sizes and alignments put its member, and is as large |
| `Structures.ProcessSize` | src/bin/enigmatic/system/process.h:62-102 | The structure has 8720 bytes |
| `Structures.FieldKinds` | src/bin/enigmatic/client/enigmatic_client.c:302-391 | Which fields are texts, flags, the double, sizes in pages of 4096 bytes, or plain numbers |
| `Client.Client.ChangeFind` | src/bin/enigmatic/client/enigmatic_client.c:155-207 | The value is that of the payload and the index moves by the width; fails exactly for other widths and short payloads |
| `Client.Client.TakeProcesses` | src/bin/enigmatic/client/enigmatic_client.c:249-297 | The loop over a refresh or an addition is the function on process lists; fails exactly when the payload is cut short |
| `Client.Client.DeleteProcesses` | src/bin/enigmatic/client/enigmatic_client.c:393-411 | Removing from the list while walking it removes every process with the pid and keeps the order of the others |
| `Client.Client.ModifyProcesses` | src/bin/enigmatic/client/enigmatic_client.c:299-391 | A modification of a process, by text or number |
| `Client.Client.ModifyMemory` | src/bin/enigmatic/client/enigmatic_client.c:888-925 | A memory modification adds whole pages modulo 2^64 to the word it names |
| `Client.Client.ChangeObjects` | src/bin/enigmatic/client/enigmatic_client.c:932-1034 | The loop changes every object with the id, and no other |
| `Client.Client.RemoveObjects` | src/bin/enigmatic/client/enigmatic_client.c:932-1034 | Removing from a list while walking it removes every object with the id and keeps the order of the others |
| `Client.Client.TakeObjects` | src/bin/enigmatic/client/enigmatic_client.c:419-1034 | The loops of refresh and addition: an empty list is filled; another one is extended by an addition, and by a refresh has the totals of interfaces and file systems updated while cores, sensors and batteries stay as they are |
| `Client.Client.ListMessage` | src/bin/enigmatic/client/enigmatic_client.c:419-1034 | Refresh, addition and deletion of cores, sensors, batteries, interfaces and file systems change the list of their kind only |
| `Client.Client.ModifyDevices` | src/bin/enigmatic/client/enigmatic_client.c:419-1034 | Modifications of these objects and of the power supply take the bytes of their width and change every object with the id |
| `Client.Client.MessageMod` | src/bin/enigmatic/client/enigmatic_client.c:1107-1192 | The width is read, then each kind of object takes its bytes and makes its change |
| `Client.Client.MessageObjects` | src/bin/enigmatic/client/enigmatic_client.c:1036-1105 | Refresh, addition and deletion take their bytes and make their change |
| `Client.Client.EventMessage` | src/bin/enigmatic/client/enigmatic_client.c:1226-1251 | A message moves index and snapshot as the record says |
| `Client.Client.EventBlockEnd` | src/bin/enigmatic/client/enigmatic_client.c:1253-1268 | Sets the time and extends the bounds |
| `Client.Client.EventBroadcast` | src/bin/enigmatic/client/enigmatic_client.c:1270-1298 | Sets the interval, passes over the magic numbers, ends the last record |
| `Client.Client.ReadRecords` | src/bin/enigmatic/client/enigmatic_client.c:1556-1589 | Reads the records up to the limit, each doing what replay says, or gives up; the lists of processes and of all devices go with a last record |
| `ArchivedHistory.Show` | src/bin/engine/evisum_engine.c:294-310 | A sorted log that was compressed, unpacked and read up to t shows exactly the records with time at most t |
| `ArchivedHistory.TimeSet` | src/bin/engine/evisum_engine.c:730-779 | A requested moment is shown if and only if some log holds it: from the first one known that does, or else the first one of a new scan, exactly the records up to the moment |
| `Memory.Monitor.CompareWord` | src/bin/enigmatic/monitor/memory.c:35-41 | One comparison writes the difference in pages if there is one and keeps the new value |
| `Memory.Monitor.Poll` | src/bin/enigmatic/monitor/memory.c:15-106 | One poll appends exactly the records of its changes, in order, or one refresh, and keeps the new values of what it compares |
| `Memory.FoldRun` | src/bin/enigmatic/client/enigmatic_client.c:875-930 | Folding what any run of polls wrote gives the client the replica that adds whole pages |
| `Memory.LagInvariant` | src/bin/enigmatic/monitor/memory.c:32-106 | Over any run, the daemon's value minus the client's is, modulo 2^64, the sum of each sample difference modulo 4096 since the last refresh |
| `Memory.LagBound` | src/bin/enigmatic/monitor/memory.c:32-106 | That sum is at most 4095 for every change since the last refresh |
| `Memory.AlignedHasNoLag` | src/bin/enigmatic/monitor/memory.c:32-106 | It is zero when all differences are whole pages, rising or falling |
| `Memory.GrowthLost` | src/bin/enigmatic/monitor/memory.c:32-41 | Growth by less than 4096 bytes in one poll is a case: it is the lag, and the client keeps the old value |
| `Memory.KeepsLast` | src/bin/enigmatic/monitor/memory.c:32-106 | After any run the daemon holds, of the seven sizes and of both words of every known video card, what the system had at the last poll |
| `Memory.QuietPoll` | src/bin/enigmatic/monitor/memory.c:32-106 | A poll that finds nothing new writes nothing |
| `Memory.Replication` | src/bin/enigmatic/monitor/memory.c:15-106 | From the bytes of the log: the client reads all of it, and of the seven sizes and the words of the video cards known with the last refresh it has what the system had at the last poll if and only if the lag is a multiple of 2^64, in particular when all differences are whole pages |
| `UniqueIds.FoundIsLeast` | src/bin/enigmatic/uid.c:4-28 | The id that is found is the least number not in use; afterwards it is in use and nothing else has changed |
| `UniqueIds.ReleasedIsFree` | src/bin/enigmatic/uid.c:30-48 | Releasing an id makes it available and changes nothing else |
| `UniqueIds.Ids.Find` | src/bin/enigmatic/uid.c:4-28 | The loop takes the first entry that is available, or appends one that is one more than the last |
| `UniqueIds.Ids.Release` | src/bin/enigmatic/uid.c:30-48 | The loop frees the first entry with the id; it fails, and the program ends, exactly if there is none |
| `Network.ActApplied` | src/bin/enigmatic/client/enigmatic_client.c:521-619 | Every record of the monitor is well formed and does to the list of a client what it should: fill or update it, remove, append, or add to a total |
| `Network.SameRefresh` | src/bin/enigmatic/client/enigmatic_client.c:534-558 | A refresh with the objects that the list has changes nothing, in whatever order they come |
| `Network.ActKeepsSync` | src/bin/enigmatic/client/enigmatic_client.c:521-619 | Whatever the monitor reports, a client that has its objects, each once and byte for byte, has them afterwards |
| `NetworkPoll.AddIsGood` | src/bin/enigmatic/monitor/network_interfaces.c:122-135 | A new interface gets a number that no other has, and keeps its name and totals |
| `NetworkPoll.GapAdded` | src/bin/enigmatic/monitor/network_interfaces.c:140-158 | The unsigned difference fits the signed 64 bits of the log, and adding it gives the new total, for any two totals |
| `NetworkPoll.MetKnown` | src/bin/enigmatic/monitor/network_interfaces.c:137-160 | A known interface keeps its place and number and has the totals that were seen |
| `NetworkPoll.ByNameProper` | src/bin/enigmatic/monitor/network_interfaces.c:36-46 | Sorting by name loses no object and doubles none |
| `NetworkPoll.LessIs` | src/bin/enigmatic/monitor/network_interfaces.c:16-26 | The comparison is by the first byte that differs, or by the length |
| `NetworkPoll.ByNameOrder` | src/bin/enigmatic/monitor/network_interfaces.c:43-53 | In the list of a refresh the names come in that order |
| `NetworkPoll.BroadcastedInStep` | src/bin/enigmatic/monitor/network_interfaces.c:81-84 | After a broadcast a client that had nothing has what the monitor has, and one that was in step still is |
| `NetworkPoll.PurgedAre` | src/bin/enigmatic/monitor/network_interfaces.c:86-117 | Exactly the interfaces that are seen stay |
| `NetworkPoll.PollInStep` | src/bin/enigmatic/monitor/network_interfaces.c:57-165 | After a poll the monitor has exactly the interfaces that were seen, with their totals and different numbers, and so has a client that was in step or hears the broadcast with an empty list |
| `NetworkPoll.NumbersStay` | src/bin/enigmatic/monitor/network_interfaces.c:119-162 | An interface that is still there keeps its number |
| `NetworkPoll.PollIds` | src/bin/enigmatic/monitor/network_interfaces.c:57-165 | After a poll exactly the numbers of the monitor's interfaces and those that others had are in use: the id of an interface that is gone is free again |
| `NetworkPoll.QuietPoll` | src/bin/enigmatic/monitor/network_interfaces.c:86-165 | A poll that finds the same interfaces with the same totals reports and changes nothing |
| `NetworkMonitor.Monitor.Register` | src/bin/enigmatic/monitor/network_interfaces.c:65-79 | The first poll gives an id to every interface and writes nothing |
| `NetworkMonitor.Monitor.Broadcast` | src/bin/enigmatic/monitor/network_interfaces.c:28-54 | One refresh with all objects sorted by name, or nothing if there are none |
| `NetworkMonitor.Monitor.FindGone` | src/bin/enigmatic/monitor/network_interfaces.c:86-105 | Exactly the objects whose names are not seen, the last first |
| `NetworkMonitor.Monitor.DropGone` | src/bin/enigmatic/monitor/network_interfaces.c:107-117 | One deletion for each, and its id is released; the id is always known, so the daemon does not end there; the object deleted by its name is the one that clients delete by its number |
| `NetworkMonitor.Monitor.Meet` | src/bin/enigmatic/monitor/network_interfaces.c:121-161 | An addition with a new id, or the differences of the two totals and the new totals |
| `NetworkMonitor.Monitor.Compare` | src/bin/enigmatic/monitor/network_interfaces.c:140-158 | The difference of one total is written if there is one |
| `NetworkMonitor.Monitor.Poll` | src/bin/enigmatic/monitor/network_interfaces.c:57-165 | One poll appends exactly the records of its changes, in order, and leaves the objects and ids that follow from what was seen |
| `NetworkMonitor.FoldRun` | src/bin/enigmatic/monitor/network_interfaces.c:57-165 | Folding what any run of polls wrote succeeds and leaves the client in step |
| `NetworkMonitor.OnlyNetworkCounts` | src/bin/enigmatic/client/enigmatic_client.c:1037-1225 | In any log the list of interfaces depends on the records about interfaces alone |
| `NetworkMonitor.Replication` | src/bin/enigmatic/monitor/network_interfaces.c:57-165 | From the bytes of the log, with records of other monitors anywhere in between: from a broadcast on, a client that begins with no interfaces has the objects of the daemon byte for byte, and shows exactly the interfaces seen last, each once, with their totals |
| `Colors.FallbackIsPrime` | src/bin/ui/evisum_ui_colors.c:245-250 | 1021 has no divisors but 1 and itself |
| `Colors.FallbackCoprime` | src/bin/ui/evisum_ui_colors.c:356-361 | Every step that the hash can give is coprime to 1021 |
| `Colors.Reaches` | src/bin/ui/evisum_ui_colors.c:360-367 | With a coprime step some attempt looks at any given slot |
| `Colors.CoverageIffCoprime` | src/bin/ui/evisum_ui_colors.c:360-367 | The attempts look at every slot if and only if step and size are coprime |
| `Colors.FreeSlot` | src/bin/ui/evisum_ui_colors.c:360-367 | With fewer keys than slots and a coprime step, some attempt finds a free slot |
| `Colors.Pool.FirstFree` | src/bin/ui/evisum_ui_colors.c:360-367 | The 32-bit probe loop looks at the slots of the double hashing in their order and stops at the first free one, or none of them is free |
| `Colors.Pool.Get` | src/bin/ui/evisum_ui_colors.c:346-375 | A known key keeps its slot. A new key gets the first free one of the slots `(h mod n + i (1 + (h >> 16) mod (n - 1))) mod n`, i = 0, 1, ..., or `h mod n` if n attempts find none; with fewer keys than slots and coprime steps it is one that no key has |
| `Colors.Run` | src/bin/ui/evisum_ui_colors.c:328-375 | Any run of requests on the fallback pool: equal keys get equal slots, up to 1021 different keys different ones, and the first request for a key the first free slot that its hash points to |
| `Forest.BuildByHash` | src/bin/engine/evisum_engine.c:1427-1459 | For any list of processes the hash-indexed builder groups them, in list order, by a parent that the hash can give; with distinct pids these are the child lists of the linear scan, and the roots |
| `Forest.HashPartition` | src/bin/engine/evisum_engine.c:1427-1459 | Even if pids repeat, roots and child lists hold every process exactly once, in list order, and a child under a process with its parent's pid |
| `Forest.BuildByScan` | src/bin/engine/evisum_engine.c:1503-1504 | The linear scan gives the same lists, also when pids repeat |
| `Forest.ChildAdd` | src/bin/engine/evisum_engine.c:1461-1475 | The first process that matches takes the child |
| `Forest.Partition` | src/bin/engine/evisum_engine.c:1427-1475 | Both builders agree, and roots and child lists hold every process exactly once |
| `Forest.PreorderSound` | src/bin/engine/evisum_engine.c:1477-1491 | What the preorder lists descends from its root |
| `Forest.PreorderComplete` | src/bin/engine/evisum_engine.c:1477-1491 | Everything that descends from the root is in its preorder |
| `Forest.SiblingsApart` | src/bin/engine/evisum_engine.c:1477-1491 | The families of two siblings share no process |
| `Forest.PreorderExact` | src/bin/engine/evisum_engine.c:1493-1525 | The preorder lists exactly the descendants, each once, the root first |
| `Forest.FamilyTogether` | src/bin/engine/evisum_engine.c:1477-1491 | What descends from a process follows it without a gap, in the order of its own preorder |
| `Forest.SiblingsInOrder` | src/bin/engine/evisum_engine.c:1477-1491 | Of two siblings the one that comes first in the list comes first in the preorder |
| `Forest.ChildrenAppend` | src/bin/engine/evisum_engine.c:1477-1491 | The recursion ends when the parent relation has no cycle, and appends the preorders of the children in order |
| `Forest.ChildrenGet` | src/bin/engine/evisum_engine.c:1493-1525 | The query returns the process and its descendants in preorder and frees exactly the others |
| `Forest.FreeRest` | src/bin/engine/evisum_engine.c:1515-1522 | Every process that was not wanted is freed once |
| `HistoryProtocol.StepKeepsInvariant` | src/bin/ui/evisum_ui_process_list.c:787-874 | Every step of request, timer, worker and the callbacks that set `skip_wait` keeps the invariant: the latest request has been loaded or will still be |
| `HistoryProtocol.QuietShowsLatest` | src/bin/ui/evisum_ui_process_list.c:1492-1526 | Under every interleaving, with `skip_wait` set and cleared at any time, when no timer is armed, nothing is pending and the worker is not loading, the engine shows the time requested last |
| `HistoryProtocol.LoadKeepsNewer` | src/bin/ui/evisum_ui_process_list.c:867-874 | In every run: while a time is being loaded and until the worker's next turn, a request for another time, made before or in the meantime, is still armed, pending or about to be; finishing the older load does not lose it |
| `HistoryProtocol.StepLowersRank` | src/bin/ui/evisum_ui_process_list.c:1492-1557 | Once a request is stored, every step of request, timer and worker brings the end nearer, and looking in vain does not put it off |
| `HistoryProtocol.Settles` | src/bin/ui/evisum_ui_process_list.c:1492-1557 | Whatever the order of the steps, a run without new requests, other callbacks or an empty list has at most 88 steps that are not spent looking in vain |
| `HistoryProtocol.GoesOn` | src/bin/ui/evisum_ui_process_list.c:1492-1557 | As long as the engine does not show the latest request, such a step can be taken, at once or after looking at most twice |
| `HistoryBounds.MergeBack` | src/bin/engine/evisum_engine.c:680-688 | The merge stops at the first log, going back, that ends more than 120 seconds (in 32 bits) before the earliest start so far, and the start is the earliest of the logs taken; every instant from it to the newest end lies in a log or at most 120 seconds after the end of one; the log that stopped it ends more than 120 seconds earlier exactly when its end plus 120 fits 32 bits |
| `HistoryBounds.ContiguousBounds` | src/bin/engine/evisum_engine.c:654-699 | The whole query: when it answers, the same before clamping, the start not before `since`, the end that of the newest log or one more than the start, and after the start if and only if neither `since` nor the start of every log that was merged is the last of the 32-bit times |
| `HistoryBounds.StopsTooEarly` | src/bin/engine/evisum_engine.c:683-688 | Two logs that overlap, the older with the last of the 32-bit times as its end: the merge stops between them |
| `HistoryBounds.EndsBeforeStart` | src/bin/engine/evisum_engine.c:692-696 | A log at the last of the 32-bit times: the end is zero |
| `HistoryBounds.GapIsTwoMinutes` | src/bin/engine/evisum_engine.c:680-688 | Two logs belong together exactly if the newer starts at most 120 seconds after the end of the older |
| `HistoryBounds.Select` | src/bin/engine/evisum_engine.c:740-761 | The first known log that holds the moment, or else the first of a new scan; none exactly if no log holds it or the moment is zero |
| `ColumnOrder.Pigeonhole` | src/bin/ui/evisum_ui_widget_exel.c:98-125 | Different valid ids cannot be more than there are columns, so the arrays on the stack suffice; if there are as many, none is missing |
| `ColumnOrder.SanitizedIsOrder` | src/bin/ui/evisum_ui_widget_exel.c:98-125 | Whatever was stored, repairing gives a permutation of the columns with the first one pinned, in which the kept ids come first |
| `ColumnOrder.KeptInOrder` | src/bin/ui/evisum_ui_widget_exel.c:106-116 | The kept ids stand in the order of their first occurrences |
| `ColumnOrder.MissingAscend` | src/bin/ui/evisum_ui_widget_exel.c:117-124 | The columns that were missing follow in ascending order |
| `ColumnOrder.SanitizedFixed` | src/bin/ui/evisum_ui_widget_exel.c:98-125 | Repairing leaves exactly the good orders as they are, so it is idempotent |
| `ColumnOrder.MovedWithout` | src/bin/ui/evisum_ui_widget_exel.c:149-157 | A move keeps the order of all other columns |
| `ColumnOrder.MovedIsOrder` | src/bin/ui/evisum_ui_widget_exel.c:135-160 | A move among the columns that are not pinned keeps the permutation |
| `ColumnOrder.RunIsOrder` | src/bin/ui/evisum_ui_widget_exel.c:98-160 | After the first repair every state of every run of repairs and moves is a permutation with the first column pinned |
| `ColumnOrder.DropFits` | src/bin/ui/evisum_ui_widget_exel.c:385-442 | Moving the dragged column to where the walk over the headers stops puts it where the pointer is |
| `ColumnOrder.Columns.Sanitize` | src/bin/ui/evisum_ui_widget_exel.c:98-125 | The loops with their two arrays compute the repaired order in place and leave the rest of the array alone |
| `ColumnOrder.Columns.PositionOf` | src/bin/ui/evisum_ui_widget_exel.c:127-133 | The first position of an id, or -1 exactly when it does not occur |
| `ColumnOrder.Columns.MoveToPos` | src/bin/ui/evisum_ui_widget_exel.c:135-160 | Shifting in place is the move, with the target kept away from the pinned column; when nothing is reported nothing has changed |
| `ColumnOrder.Columns.DropPos` | src/bin/ui/evisum_ui_widget_exel.c:385-410 | Every shown column before the answer has its middle at or left of the pointer; the one at the answer has it right of the pointer, or none is shown from there on |
| `ColumnOrder.Columns.ReorderCommit` | src/bin/ui/evisum_ui_widget_exel.c:412-442 | A drop keeps the permutation and the order of the other columns and puts the dragged column where the pointer is; a change is reported exactly when there is one |
| `Cache.OnePlace` | src/bin/ui/evisum_ui_cache.c:3-149 | In every state of every run an object that was created is in exactly one place: in use, spare, waiting, stolen or deleted |
| `Cache.TicksAre` | src/bin/ui/evisum_ui_cache.c:92-117 | n waiting objects take ceil(n/20) ticks, and none take one |
| `Cache.Items.constructor` | src/bin/ui/evisum_ui_cache.c:3-25 | A new cache holds as many spare objects as asked for, the newest first |
| `Cache.Items.Get` | src/bin/ui/evisum_ui_cache.c:47-65 | The spare object released last, or a new one, goes to the front of the objects in use |
| `Cache.Items.Release` | src/bin/ui/evisum_ui_cache.c:124-149 | An object in use becomes spare, or is deleted when there are more than ten; anything else changes nothing |
| `Cache.Items.Steal` | src/bin/ui/evisum_ui_cache.c:27-45 | Exactly the objects in use that are not listed leave the cache, and the others keep their order |
| `Cache.Items.Reset` | src/bin/ui/evisum_ui_cache.c:67-90 | Everything in use and spare waits to be deleted, in that order, the spare objects are new, and the timer runs |
| `Cache.Items.Tick` | src/bin/ui/evisum_ui_cache.c:92-122 | A tick deletes the 20 objects at the front; the last tick, and only that, stops the timer and reports |
| `Cache.Items.Drain` | src/bin/ui/evisum_ui_cache.c:92-122 | Left alone, the timer ticks max(1, ceil(n/20)) times, deletes exactly what waited and reports once |

## Left out

- LZ4 with dictionaries, streams, limited output and tables of 32 bits, which only the frames use; tables
  of pointers, big-endian or 32-bit machines, partial decoding and the deprecated functions.
- Lz4Encoder.Compress: the overflow of `acceleration << 6` is not modelled; the repository only passes 1.
- Lz4Decoder.DecompressSafe: of the result for a refused block only the sign is stated, not the position.
- LZ4 frames (src/bin/enigmatic/lz4/lz4frame.c, with src/bin/enigmatic/lz4/xxhash.c) are left out by
  choice: they need the encoder with limited output, 32-bit tables and linked blocks. A tick's frame is
  taken as the identity on bytes.
- The calls of the writers in the monitors of cores, sensors, batteries, file systems, power and
  processes; `LogWriter.Log.Play` covers any sequence of calls with payloads of the announced sizes.
- NetworkMonitor.Monitor.Poll: what the system has is the sample, with different names, as
  /proc/net/dev gives them; the hash is walked in the order of insertion, which decides the order of
  deletions only; failing allocations and the answer whether a total changed, which nobody uses, are
  left out.
- NetworkMonitor.Replication: the other monitors take and release ids between polls; it is supposed that
  they leave those of the interfaces in use, and that there are never more than 2^31 - 1, with two to spare
  for every interface that is seen.
- Archive.Compress: an empty file, for which `mmap` fails, and files above 0x7FFFC000 bytes, for which
  `Archive.ChunksFit` shows that the loop goes wrong, are excluded.
- Archive.Decompress: files, mapping and allocation failure are left out; a number that does not fit a
  `long` is kept as it is, since everything above INT_MAX is refused next.
- Client.Client.MessageObjects: gives up where the reader copies the payload of a memory, list or power
  message without a check of its length.
- Client.Client.ReadRecords: the reader exits with an error where the model answers false. It does not
  check the length of a memory refresh, of cores, sensors, batteries, network interfaces, file systems,
  floats and power states before it copies them, nor the index of a video card; the model gives up
  there. For a buffer of one to seven bytes the guard of the loop underflows in C; the model reads no
  record. Callbacks, the set of changes and the file offset are left out.
- ArchivedHistory.TimeSet: scanning the disk for logs and opening files are left out, and so is the frame
  around the data of a tick.
- ArchivedHistory.Show: the frame around the data of a tick is the identity.
- Processes.ModNumberValue: what the sum of a double is, is a parameter, and so are the sums of the float
  and double of batteries and sensors. `change * 4096` is signed in C and wraps here.
- Memory.Monitor.Poll: `memory_info` and the ZFS correction are the sample; `zfs_arc_used` and
  `video_count` are never compared by the monitor, so they stay as they are between refreshes.
- `broadcast_offset_find`, which seeks by scanning raw bytes, and following a growing file.
- The writers of float and string differences.
- HistoryProtocol.QuietShowsLatest: loads succeed, and neither the button back to live data nor the
  mouse-down that cancels the timer is used. `skip_update` plays no part.
- HistoryProtocol.Settles: counts steps, not seconds.
- HistoryBounds.ContiguousBounds: finding and caching the logs on disk are left out.
- Forest.ChildrenGet: processes are positions in the list, not pointers, so aliasing is not captured;
  the depth that witnesses the absence of cycles is bounded by the length of the list, which loses no
  forest. With a cycle the C recursion does not end.
- Forest.BuildByHash: which of several processes with one pid the hash gives is left open.
- Colors.Pool.Get: the colours of the slots, the hash function itself and failing allocations are left
  out; a theme's palette of composite size is covered by the case that not all steps are coprime, in
  which a new key may share a slot. The colour maps of graphs, filled by interpolation, are easy.
- ColumnOrder.Columns.ReorderCommit: the geometry of the header buttons is a map; a disabled or absent
  button is absent from it. Dragging in pixels, the proxy and the callbacks are left out.
- Cache.Items.Tick: the callback that reports must not reset the same cache, since the code forgets the
  timer after the call; `evisum_ui_item_cache_free` is left out.
- Widgets, drawing, configuration, sockets, processes, locks on files, wall-clock arithmetic, locale.
