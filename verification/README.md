# A verified model of compact-core

A Dafny model of the storage core of compact-core, a columnar compression library, with proofs of what its formats
and operations promise. It covers five connected parts.

- **The parallel CMP2 engine** (`WorkerPool`, `ParallelEncode`, `ParallelDecode`). The pool is a step machine: one
  scheduler, any number of workers sharing a bounded job channel behind a lock, a bounded result channel, and a
  collector that puts results back in order. Every theorem quantifies over all sequences of atomic actions, so over
  all interleavings, including workers that vanish while they hold a job and a collector that leaves early. Encoding
  and decoding are two instances of the one machine and are proved equal to the sequential writer and reader.
- **The append log** (`Framing`, `BlockStream`, `Lines`, `Writer`, `BlockWriter`, `Reader`, `BlockReader`, `Recovery`,
  `AppendLog`, `Rolling`, `ColumnBlocks`, `ColumnStreams`, `Repair`). Write, crash at any byte, recover the valid prefix, resume,
  replay, seal, roll, repair. The four scanners of the source are separate here too and are proved to agree.
- **The queryable CMP4 format** (`Columns`, `ColumnFormat`, `ColumnSelect`, `Cmp4Format`, `RowGroups`, `Cmp4Encode`,
  `Cmp4Layout`, `Cmp4Scan`, `Cmp4Pushdown`, `Cmp4Recovery`, `Cmp4Validate`). Lossless files, exact predicate pushdown and
  pruning on arbitrary bytes, validation of exactly the valid files, a footer that recovery rebuilds from the body alone.
- **The search index** (`Postings`, `PostingSeek`, `PostingForm`, `PostingLoops`, `Dictionary`, `DictionaryLoops`,
  `Query`). Skip seeks that equal linear search, a dictionary that is a finite map, exactly one byte form for each
  content, boolean, ranked and phrase queries with their meaning.
- **The codecs** (`Varint`, `Bits`, `Bitpack`, `Bitmap`, `Rle`, `Numbers`, `Strings`, `StringLoops`, `Utf8`). Canonical
  forms as bijections: a decoder accepts exactly the bytes the encoder writes; where there are several forms of the same
  values (shared prefixes, dictionaries), exactly these.

## How to read it

Pure code is modelled by functions; loops over cursors, buffers and vectors are methods proved equal to those
functions, and the objects whose methods update fields (`RowGroupBuffer`, `JsonlBlockWriter`, `JsonlBlockReader`,
`PendingRowGroup`, the ordered collector) are classes. What the source promises is then proved about the functions.
Parsers carry lemmas of one shape, `Parse(data, pos) == Some((x, next))` if and only if the bytes of `x` stand at `pos`
and `x` is well formed; cutting, recovering, scanning and repairing all follow from those.

An error return is `None`. `crc`, the digest of repair, and JSON parsing and rendering are function parameters: the
theorems hold for every deterministic choice of them, and no property needs collision resistance.

Premises that stand for the source's types and for memory: `usize` has 64 bits; buffers, counts and sizes are below
2^64; strings are well-formed UTF-8; rows hold 64-bit unsigned integers, booleans and strings. Limits that the decoders
enforce and the encoders do not are stated where the code has them: 1,000,000 blocks, row groups, postings, positions of
a posting and terms; 256 MiB frames and decoded run-length bytes; 16 Mi values of a row group. They are conditions on
the data of one run, never on everything the options would allow, and most round trips are equivalences in them:
`AppendLog.EncodeThenDecode`, `AppendLog.AppendThenReplay`, `Columns.ColumnRoundTrip`, `Cmp4Encode.Lossless`,
`PostingSeek.RoundTrip`, `Repair.RepairIsSound`, `ParallelEncode.ParallelEncodeAgrees`. For the column-block codec
`ColumnStreams` derives options under which none of the limits can be exceeded.

Round trips of JSONL through CMP2 need canonical lines, because the reader compares the rendered size with the stored
one: a line is canonical when it is the rendering of what it parses to (`ColumnBlocks.Canonical`).

## Where the code and its documentation differ

The model follows the code.

- `docs/project-knowledge/compact-core/v0.9/04-recovery-and-repair.md:6` binds a repair plan to length and CRC32; the
  code binds it to length and a BLAKE3 digest (`crates/compact-core/src/storage/repair.rs:64-71`).
- `docs/project-knowledge/compact-core/v0.4/05-predicate-pushdown.md:20-22` scans a row group whose statistics are
  malformed; the code returns an error (`crates/compact-core/src/io/v4.rs:664-668`). The pushdown theorem is therefore
  stated for files whose full scan succeeds, where no statistics are malformed.
- Appending to a buffer whose stream header is damaged starts a new stream and drops the old bytes
  (`crates/compact-core/src/streaming/append.rs:96-114`); replay of such a buffer is an error.

## Model

| member | source | states |
|---|---|---|
| WorkerPool.EveryInterleaving | crates/compact-core/src/parallel/mod.rs:149-193 | for every sequence of atomic actions of scheduler, workers and collector, any number of workers and any positive channel capacity: the run is no longer than a bound in jobs and workers, some live thread can act unless all have returned, and a finished run without a dead worker returns what one thread returns |
| WorkerPool.NoSilentLoss | crates/compact-core/src/parallel/mod.rs:183-192 | even if workers vanish while holding jobs, a run that passes the collector's own check and the job-count comparison has delivered every result exactly once and in order |
| WorkerPool.EveryScheduleAgrees | crates/compact-core/src/parallel/mod.rs:501-547 | the outcome of a finished run is the fold over the jobs in order, or an error exactly when that fold fails |
| WorkerPool.NeverStuck | crates/compact-core/src/parallel/mod.rs:387-411 | no deadlock: in every state that keeps the invariant some thread can act, also after the collector has left early and dropped its receiver |
| WorkerPool.RunsAreBounded | crates/compact-core/src/parallel/mod.rs:149-193 | termination: every action decreases a measure, so every run is finite |
| WorkerPool.RunKeeps | crates/compact-core/src/parallel/mod.rs:387-411 | every job is in exactly one place (queue, worker, result channel, pending map or sink), results carry their own job's value, the lock has at most one holder, and the collector's sink holds a prefix in order: kept by every action of every run |
| WorkerPool.OrderedCollector.Take | crates/compact-core/src/parallel/mod.rs:501-547 | receiving one result updates the pending map and hands over exactly the run of results that is now next |
| WorkerPool.OrderedCollector.Finish | crates/compact-core/src/parallel/mod.rs:535-546 | a collector in order passes its completeness check exactly when no result is pending, and then returns the fold over the first n jobs |
| WorkerPool.DrainHandsOver | crates/compact-core/src/parallel/mod.rs:501-547 | the drain loop extends the ordered prefix as far as the pending results reach, or fails where the sink fails |
| ParallelEncode.ParallelEncodeAgrees | crates/compact-core/src/parallel/mod.rs:140-196 | under every schedule the bytes of a parallel encode are the sequential writer's, or both fail, up to the sequential limit of 1,000,000 blocks that the pool does not have |
| ParallelEncode.ReferenceIs | crates/compact-core/src/parallel/mod.rs:140-196 | what the pool computes when run on one thread is header, frames in order and footer index of the greedy row groups |
| ParallelEncode.ScheduleSplits | crates/compact-core/src/parallel/mod.rs:413-471 | the scheduler's splitter makes the same row groups as the sequential writer's buffer |
| ParallelEncode.ScheduleJobs | crates/compact-core/src/parallel/mod.rs:413-471 | the scheduling loop sends exactly these jobs, numbered and with the row counts before them |
| ParallelEncode.PendingRowGroup.PushLine | crates/compact-core/src/parallel/mod.rs:790-795 | a pushed line extends the pending row group's text, row count and size together |
| ParallelEncode.PendingRowGroup.TakeJob | crates/compact-core/src/parallel/mod.rs:815-829 | taking the job hands over the text and clears the group |
| ParallelEncode.FoldWrites | crates/compact-core/src/parallel/mod.rs:501-533 | after n results the collector has written the first n frames and their metadata with the right offsets |
| ParallelDecode.ParallelDecodeAgrees | crates/compact-core/src/parallel/mod.rs:203-257 | on arbitrary bytes, under every schedule, the threaded decoder fails exactly when the sealed reader fails and otherwise writes the same text |
| ParallelDecode.ScheduleDecodeJobs | crates/compact-core/src/parallel/mod.rs:575-662 | the decode scheduler's loop finds exactly the blocks and the verdict of a scan of the envelopes |
| ParallelDecode.ScheduleIsScan | crates/compact-core/src/parallel/mod.rs:584-657 | the scheduler's scan is the reader's scan of a sealed stream |
| ParallelDecode.FoldDelivers | crates/compact-core/src/parallel/mod.rs:692-733 | delivering texts in order with the row-number check is decoding the blocks in order |
| ParallelDecode.ReadBatch | crates/compact-core/src/parallel/mod.rs:264-355 | one batch of the asynchronous decoder continues the same scan where the last one stopped |
| ParallelDecode.DecodeBatch | crates/compact-core/src/parallel/mod.rs:357-385 | a batch decodes to the texts of its blocks, or fails if any of them fails |
| ParallelDecode.DecodeBatched | crates/compact-core/src/parallel/mod.rs:264-355 | for every batch size the asynchronous decoder returns what the sequential sealed decoder returns, on arbitrary bytes |
| Framing.DecodeFrameIff | crates/compact-core/src/framing/mod.rs:34-108 | frame decoding accepts exactly the bytes frame encoding writes |
| Framing.FrameAt | crates/compact-core/src/framing/mod.rs:54-108 | a frame inside a buffer is its fields at their fixed positions |
| BlockStream.HeaderOkIff | crates/compact-core/src/streaming/reader.rs:307-333 | the stream header is accepted exactly when it is the written one |
| BlockStream.ParseBlockIff | crates/compact-core/src/streaming/reader.rs:453-503 | a block payload parses exactly when it is the payload of that block |
| BlockStream.FrameBlockIff | crates/compact-core/src/streaming/append.rs:196-225 | a block frame is accepted exactly when its bytes are that block's |
| BlockStream.ReadIndexIff | crates/compact-core/src/streaming/reader.rs:406-443 | a footer index reads exactly from the bytes of a numbered list of at most 1,000,000 entries |
| Recovery.RecoverAppendStream | crates/compact-core/src/streaming/append.rs:142-273 | header, scan loop and the three checked totals compute the recovery function |
| Recovery.ScanRecords | crates/compact-core/src/streaming/append.rs:171-235 | the recovery loop with its cursor, expected numbers and tail flag |
| Recovery.CheckedTotal | crates/compact-core/src/streaming/append.rs:275-285 | a total, or an error exactly when the sum exceeds 64 bits |
| Recovery.NextFrameIff | crates/compact-core/src/streaming/append.rs:176-225 | recovery accepts a frame exactly when the block's own bytes stand there and fit the limits |
| Recovery.RecoveryIsMaximal | crates/compact-core/src/streaming/append.rs:142-273 | recovery returns a chain of blocks the buffer starts with, and every such chain is a prefix of it |
| Recovery.CrashConsistency | crates/compact-core/src/streaming/append.rs:142-273 | a stream cut at any byte at or behind its header recovers exactly the blocks whose frames end by the cut, and fails exactly when their raw sizes overflow |
| Recovery.GarbageTail | crates/compact-core/src/streaming/append.rs:142-273 | whatever follows a valid stream, a successful recovery begins with all its blocks |
| Recovery.ScanSound | crates/compact-core/src/streaming/append.rs:176-235 | the scanned blocks stand in the buffer one after the other with consecutive numbers and rows |
| Recovery.CutFrame | crates/compact-core/src/streaming/append.rs:176-200 | a frame that was cut short is never accepted |
| Lines.NormalizeIff | crates/compact-core/src/streaming/writer.rs:254-269 | a line normalizes to its content and one line feed exactly when it is that content, free of line breaks, with no ending, LF, CR or CR LF; every other line is an error |
| Lines.BlankIff | crates/compact-core/src/streaming/writer.rs:98-100 | a line is skipped as blank exactly when it is a sequence of Unicode white space characters in UTF-8 |
| Lines.RowsOfConcat | crates/compact-core/src/streaming/reader.rs:555-557 | the non-blank lines of a concatenation of normal lines are these lines |
| Writer.WriteLinesSplits | crates/compact-core/src/streaming/writer.rs:97-120 | writing lines one by one emits exactly the row groups of the greedy splitter |
| Writer.SplitGood | crates/compact-core/src/streaming/writer.rs:97-120 | every row group has between one row and the row limit, and at most the byte limit; the groups, one after the other, are the normalized non-blank lines |
| Writer.NormalRowsIff | crates/compact-core/src/streaming/writer.rs:97-120 | the rows of an input are, in order, the contents of its non-blank lines, each with one line feed; there are none exactly when a line has no content |
| Writer.SplitIsGreedy | crates/compact-core/src/streaming/writer.rs:97-120 | no row group could have taken the next line: a group is closed only when the next line would exceed a limit |
| Writer.GreedyUnique | crates/compact-core/src/streaming/writer.rs:97-120 | there is only one way to split rows into groups that are within the limits and as long as these allow |
| Writer.SplitExists | crates/compact-core/src/streaming/writer.rs:97-120 | splitting fails exactly when a line cannot be normalized or is longer than the byte limit |
| Writer.SplitFromFlat | crates/compact-core/src/streaming/writer.rs:97-120 | whatever is buffered, the row groups of the greedy splitter and its remaining buffer are, one after the other, the buffer and the normalized non-blank lines |
| Writer.EmitAllWrites | crates/compact-core/src/streaming/writer.rs:126-173 | emitting row groups appends their frames and their metadata, within the writer's limits, or fails exactly beyond them |
| Writer.EncodeStreamIs | crates/compact-core/src/streaming/writer.rs:180-185 | a finished sequential stream is header, frames and footer index of the greedy row groups |
| Writer.EncodeExists | crates/compact-core/src/streaming/writer.rs:126-185 | encoding succeeds exactly when both block limits are positive, every line can be normalized and is short enough, reading does not fail, the codec accepts every row group, and the stream stays within the writer's limits |
| BlockStream.IndexAt | crates/compact-core/src/streaming/writer.rs:126-173 | the metadata of every block are its own counts and checksum, and its frame stands in the stream at the offset and with the length they give |
| Writer.BlocksOfChain | crates/compact-core/src/streaming/writer.rs:126-173 | written blocks are numbered consecutively and count their rows consecutively |
| BlockWriter.RowGroupBuffer.PushLine | crates/compact-core/src/streaming/writer.rs:219-223 | the buffer's text, row count and byte count grow together |
| BlockWriter.RowGroupBuffer.Clear | crates/compact-core/src/streaming/writer.rs:247-251 | clearing empties all three |
| BlockWriter.JsonlBlockWriter.WriteJsonlLine | crates/compact-core/src/streaming/writer.rs:97-120 | one line changes the writer's whole state as the specification says, or reports an error |
| BlockWriter.JsonlBlockWriter.FlushBlock | crates/compact-core/src/streaming/writer.rs:126-173 | flushing appends one block, its metadata and the counters, and empties the buffer |
| BlockWriter.JsonlBlockWriter.Finish | crates/compact-core/src/streaming/writer.rs:180-185 | finishing flushes and appends the footer index of all metadata |
| BlockWriter.JsonlBlockWriter.FinishWithoutFooter | crates/compact-core/src/streaming/writer.rs:191-195 | finishing an append stream flushes and writes no footer |
| BlockWriter.EncodeJsonlStream | crates/compact-core/src/streaming/writer.rs:97-185 | the writer driven over all lines returns the sequential encoding |
| Reader.StepBlockIff | crates/compact-core/src/streaming/reader.rs:84-152 | a block is read exactly when its frame stands next and it has the next numbers |
| Reader.StepSealedIff | crates/compact-core/src/streaming/reader.rs:154-179 | the reader ends exactly at an index equal to the blocks read, with nothing behind it |
| Reader.RecordIsNextFrame | crates/compact-core/src/streaming/reader.rs:341-386 | the stream reader and append recovery accept the same frames |
| Reader.SealedIff | crates/compact-core/src/streaming/reader.rs:84-179 | scanning a buffer ends sealed exactly when the buffer is that sealed stream, byte for byte |
| Reader.SealedDecodeIff | crates/compact-core/src/streaming/reader.rs:84-179 | a sealed stream decodes exactly when it is a sealed stream of decodable blocks, and then to their texts |
| Reader.TextsIff | crates/compact-core/src/streaming/reader.rs:84-152 | blocks decode to a text exactly when it consists of what their columns decode to, each with the row count and the raw size of its header |
| Reader.InspectDecides | crates/compact-core/src/streaming/reader.rs:183-282 | inspection lists the scanned blocks and totals, and fails exactly when the raw sizes overflow |
| Reader.ScannersAgree | crates/compact-core/src/streaming/reader.rs:183-282 | on a stream the sealed reader accepts, inspection and append recovery list the same blocks and recovery stops at the footer |
| Reader.SealedRecovers | crates/compact-core/src/streaming/append.rs:142-273 | append recovery of a sealed stream keeps all blocks and reports the footer as a tail |
| BlockReader.JsonlBlockReader.Next | crates/compact-core/src/streaming/reader.rs:84-152 | one call advances the reader's counters and metadata by one checked, decoded block |
| BlockReader.DecodeJsonlStream | crates/compact-core/src/streaming/reader.rs:84-179 | reading block after block is the sealed decoding |
| BlockReader.ReplayJsonlAppendStream | crates/compact-core/src/streaming/append.rs:125-139 | recover, then read the valid prefix unsealed |
| BlockReader.InspectJsonlStream | crates/compact-core/src/streaming/reader.rs:183-282 | the inspection loop and its checked totals |
| AppendLog.AppendJsonlStream | crates/compact-core/src/streaming/append.rs:96-122 | recover, resume behind the prefix, write, flush |
| AppendLog.AppendIs | crates/compact-core/src/streaming/append.rs:52-68 | a resumed writer writes the trustworthy blocks, then the new ones, and nothing else; it continues numbers, rows and offsets behind the recovered prefix and has the metadata of the new blocks |
| AppendLog.AppendExists | crates/compact-core/src/streaming/append.rs:96-122 | an append succeeds exactly when the buffer can be recovered, both block limits are positive, every line is valid, reading does not fail, the codec accepts every row group, and old and new blocks together stay within the writer's limits |
| AppendLog.AppendRecovers | crates/compact-core/src/streaming/append.rs:96-122 | the result of an append recovers up to the first new frame above the size limit, so completely and with no bad tail exactly when every new frame is within it |
| AppendLog.AppendThenReplay | crates/compact-core/src/streaming/append.rs:96-139 | replay after append is the old replay followed by the contents of the new non-blank lines, in order and each with one line feed, whatever corrupt tail or footer the old buffer had, if and only if the new frames are within the readers' size limit and the raw sizes fit in 64 bits |
| AppendLog.AppendReplays | crates/compact-core/src/streaming/append.rs:96-139 | for every append: replay of the result is the old replay followed by the row groups in front of the first frame above the size limit, or an error when the raw sizes overflow |
| AppendLog.EncodeThenDecode | crates/compact-core/src/streaming/writer.rs:97-185 | a sealed encoding decodes to the contents of the non-blank lines it was made from, in order and each with one line feed, if every frame of the run is within the readers' size limit, and fails otherwise |
| AppendLog.ReplayIsTexts | crates/compact-core/src/streaming/append.rs:125-139 | replay is decoding the recovered blocks in order |
| Rolling.RollJsonlAppendSegments | crates/compact-core/src/streaming/rolling.rs:47-88 | the rolling loop with its optional writer, its two segment limits and the finished segments is the rolling function, also for a read that fails behind the lines |
| Rolling.RollingConserves | crates/compact-core/src/streaming/rolling.rs:47-88 | the segments hold, in greedy row groups, exactly the contents of the non-blank lines; no segment grows once it has reached its block or its byte limit (all but its last two blocks are below both), and every segment but the last was closed at one of them; with a codec lossless on them the segments' replays concatenate to these contents if and only if they keep the readers' limits, and then each recovers completely and keeps the block limits |
| Rolling.RollExists | crates/compact-core/src/streaming/rolling.rs:47-88 | rolling succeeds whenever every line is valid and every run of the rows, in groups within the limits, can be written to a stream of its own |
| Rolling.SegmentText | crates/compact-core/src/streaming/append.rs:125-139 | replay of any segment gives its row groups in front of the first frame above the size limit, or fails when the raw sizes overflow |
| Rolling.RollFromHolds | crates/compact-core/src/streaming/rolling.rs:60-86 | every finished segment holds whole row groups, ends where its limits say, and all of them together hold the input lines |
| ColumnBlocks.ColumnBlocksLossless | crates/compact-core/src/io/mod.rs:64-127 | the column-block codec of CMP2 is lossless on the row groups of a run: canonical lines decode to the same text |
| ColumnBlocks.GroupRoundTrip | crates/compact-core/src/io/mod.rs:181-276 | a row group of canonical lines decodes to the same lines |
| ColumnBlocks.GroupRenders | crates/compact-core/src/io/mod.rs:64-127 | whatever lines a row group was made of, it decodes to one line for each of them, in order: the rendering of the schema's fields of the row it holds |
| ColumnBlocks.PairsAt | crates/compact-core/src/io/mod.rs:599-620 | the rendered cells of a row are its fields, in the order of the schema, null where one is missing |
| ColumnBlocks.EncodeExists | crates/compact-core/src/io/mod.rs:64-102 | a row group is encoded exactly when the schema is supported, every line parses, and every column fits its rows: each row has a value of its type, and its numbers do not decrease |
| ColumnBlocks.ValuesRoundTrip | crates/compact-core/src/io/mod.rs:501-597 | delta-varint, run-length and dictionary columns decode to their values |
| ColumnStreams.SealedColumnBlocks | crates/compact-core/src/io/mod.rs:64-127 | a sealed stream of column blocks decodes to the canonical lines it was made from if every frame of the run is within the size limit, and not at all otherwise |
| ColumnStreams.AppendColumnBlocks | crates/compact-core/src/streaming/append.rs:96-139 | replay of column blocks after an append is the old replay followed by the contents of the new canonical lines, exactly within the readers' limits |
| ColumnStreams.RoomyRoundTrip | crates/compact-core/src/io/mod.rs:64-127 | under options with room for the schema, sealed column blocks always decode to the lines they were made from |
| ColumnStreams.RoomyAppend | crates/compact-core/src/streaming/append.rs:96-139 | under such options replay after an append fails only when the raw sizes overflow |
| ColumnStreams.RoomyRolling | crates/compact-core/src/streaming/rolling.rs:47-88 | under such options rolled segments of column blocks always recover completely and replay to the lines |
| ColumnStreams.PayloadSize | crates/compact-core/src/io/mod.rs:501-597 | no column payload is longer than a bound in the two block limits, for all three column codecs |
| ColumnStreams.DefaultsAreRoomy | crates/compact-core/src/streaming/options.rs:3-58 | the default options have room for every schema of up to 15 columns |
| Repair.RepairIsSound | crates/compact-core/src/storage/repair.rs:64-129 | executing a plan on its own bytes keeps the recoverable prefix (or the whole file), and the result plans to no action with the same units and rows; it fails exactly when a repaired CMP4 file would have more than 1,000,000 row groups |
| Repair.Cmp2PlanIs | crates/compact-core/src/storage/repair.rs:131-163 | nothing is planned exactly for a sealed stream whose raw sizes fit in 64 bits; otherwise the plan keeps the longest chain of blocks the buffer begins with, rebuilds the footer exactly when nothing stands behind it, and discards whatever does; the result is in each case the sealed stream of these blocks |
| Repair.Cmp4PlanIs | crates/compact-core/src/storage/repair.rs:165-192 | nothing is planned exactly for a valid file; otherwise the plan keeps the longest run of row groups the buffer begins with, rebuilds the footer exactly when nothing stands behind it, and discards whatever does; the result is the file of these groups, up to 1,000,000 of them |
| Repair.PlanExists | crates/compact-core/src/storage/repair.rs:43-57 | a plan exists exactly for a recoverable CMP2 stream and for a valid or recoverable CMP4 file |
| Repair.Cmp2Repairs | crates/compact-core/src/storage/repair.rs:131-163 | executing a CMP2 plan always passes its final inspection, keeps the recoverable prefix, and leaves a buffer for which nothing is to be done |
| Repair.Cmp4Repairs | crates/compact-core/src/storage/repair.rs:165-192 | executing a CMP4 plan succeeds if and only if nothing was to be done or at most 1,000,000 row groups were recovered, and leaves a buffer for which nothing is to be done |
| Cmp4Format.TooManyGroups | crates/compact-core/src/format/v4.rs:203-212 | a file with more row groups than the footer reader accepts has no readable footer |
| Repair.StalePlan | crates/compact-core/src/storage/repair.rs:64-76 | a plan is executed on exactly the file it was made for, as far as the digest tells files apart |
| Repair.PlanRepair | crates/compact-core/src/storage/repair.rs:43-57 | planning with the scanners' own loops is the planning function |
| Repair.ExecuteRepair | crates/compact-core/src/storage/repair.rs:64-129 | copying the prefix and writing the footer behind it is the execution function |
| Varint.ReadIff | crates/compact-core/src/primitives/varint.rs:83-113 | one varint is read exactly from the encoder's bytes of a 64-bit value: truncated, overlong and overflowing forms are rejected |
| Varint.EncodeMeans | crates/compact-core/src/primitives/varint.rs:8-25 | a varint has the digits of its number to the base 128, least significant first, a high bit on all but the last byte, and no superfluous digit |
| Varint.DecodeIff | crates/compact-core/src/primitives/varint.rs:33-76 | a byte string decodes to values exactly when it is their encoding |
| Varint.EncodeU64 | crates/compact-core/src/primitives/varint.rs:8-25 | the shifting loop writes the specified groups |
| Varint.ReadU64 | crates/compact-core/src/primitives/varint.rs:83-113 | the cursor loop with its running value reads the same as the specification |
| Varint.DecodeU64 | crates/compact-core/src/primitives/varint.rs:33-76 | the one-pass stream decoder agrees with reading varint after varint |
| Bits.UnpackIff | crates/compact-core/src/primitives/bitpack.rs:139-160 | packing bits is a bijection onto byte strings of the right length with zero padding |
| Bitmap.DecodeIff | crates/compact-core/src/primitives/bitmap.rs:27-40 | a bitmap decodes exactly from the bytes its encoder writes |
| Bitmap.Encode | crates/compact-core/src/primitives/bitmap.rs:10-20 | setting bits one by one in a zeroed buffer packs them |
| Bitmap.PackSet | crates/compact-core/src/primitives/bitmap.rs:13-17 | setting one clear bit changes one byte by the weight of the bit |
| Bitpack.DecodeIff | crates/compact-core/src/primitives/bitpack.rs:69-119 | for every width from 0 to 64, bit packing and unpacking are inverse in both directions, with the length and padding checks |
| Bitpack.EncodeU64 | crates/compact-core/src/primitives/bitpack.rs:9-62 | the nested loops over a current byte write the specified bytes, or reject values that do not fit and sizes that overflow |
| Bitpack.DecodeU64 | crates/compact-core/src/primitives/bitpack.rs:69-119 | the nested loops over a bit offset read the specified values, or reject the width, the count, the length or the padding |
| Rle.RoundTrip | crates/compact-core/src/primitives/rle.rs:11-84 | encoded bytes decode to themselves exactly when they fit the caller's bound |
| Rle.EncodesMaximalRuns | crates/compact-core/src/primitives/rle.rs:11-33 | neighbouring pairs have different bytes unless the first run has the greatest length a pair can say |
| Rle.ExpandExists | crates/compact-core/src/primitives/rle.rs:48-84 | pairs are written out exactly when there is an even number of bytes and no empty run |
| Rle.EncodeRle | crates/compact-core/src/primitives/rle.rs:11-33 | the two run loops write maximal runs cut at 255 |
| Rle.DecodeRleBounded | crates/compact-core/src/primitives/rle.rs:48-84 | the counting pass and the writing pass expand the pairs, or reject odd length, empty runs and results above the bound |
| Numbers.SumsIff | crates/compact-core/src/primitives/delta.rs:17-61 | running sums and deltas are inverse on 64-bit values |
| Numbers.DeltasExist | crates/compact-core/src/primitives/delta.rs:17-36 | delta encoding exists exactly for non-decreasing lists |
| Numbers.WidthTight | crates/compact-core/src/codecs/v3/numeric.rs:326-328 | the required width is the least width whose range contains the value |
| Numbers.RoundTrip | crates/compact-core/src/codecs/v3/numeric.rs:21-161 | u64 values decode to themselves under all four codecs |
| Numbers.DecodeIff | crates/compact-core/src/codecs/v3/numeric.rs:83-161 | under each of the four codecs exactly one payload decodes to given values for the width and the base that the metadata declare |
| Numbers.EncodeExists | crates/compact-core/src/codecs/v3/numeric.rs:21-81 | bit packing and stored values always succeed within memory, the delta codecs exactly on non-decreasing values |
| Numbers.EncodeDeltas | crates/compact-core/src/codecs/v3/numeric.rs:196-214 | the loop with a running previous value |
| Numbers.DecodeDeltas | crates/compact-core/src/codecs/v3/numeric.rs:216-238 | the loop with a running previous value and the overflow check |
| Strings.DecodeStoredIff | crates/compact-core/src/codecs/v3/string.rs:181-210 | a stored payload decodes exactly from the encoder's bytes |
| Strings.StoredSize | crates/compact-core/src/codecs/v3/string.rs:115-127 | a stored payload spends one to ten bytes per value beyond the strings: the bounds of both decoder guards |
| Strings.CommonPrefixIs | crates/compact-core/src/codecs/v3/string.rs:212-231 | the shared prefix is common and maximal |
| Strings.PrefixEntryShortest | crates/compact-core/src/codecs/v3/string.rs:212-231 | the entry of a string shares its longest common prefix with the one before it, and no other shared prefix gives a shorter entry |
| Strings.DecodePrefixIff | crates/compact-core/src/codecs/v3/string.rs:233-262 | a prefix payload decodes exactly when it consists of entries of these strings, whatever prefixes they share, with nothing behind them |
| Strings.PrefixRoundTrip | crates/compact-core/src/codecs/v3/string.rs:212-262 | prefix-coded strings decode to themselves, never exceeding the previous string |
| Strings.DictionaryRoundTrip | crates/compact-core/src/codecs/v3/string.rs:264-329 | dictionary-coded strings decode to themselves |
| Strings.DictionarySound | crates/compact-core/src/codecs/v3/string.rs:264-281 | the dictionary has no duplicates and only strings of the column |
| Strings.DictionaryInOrder | crates/compact-core/src/codecs/v3/string.rs:264-281 | strings are numbered by their first occurrence |
| Strings.DecodeDictionaryIff | crates/compact-core/src/codecs/v3/string.rs:291-329 | a dictionary payload decodes exactly when it is a dictionary within its limit and references into it that give these strings |
| Strings.RoundTrip | crates/compact-core/src/codecs/v3/string.rs:17-146 | string columns decode to themselves in all four codecs and encoder output trips no other decoder guard than the exact run-length limit |
| Strings.RunLengthExactly | crates/compact-core/src/codecs/v3/string.rs:115-127 | a run-length column decodes if and only if its stored form is within the limit on decoded bytes |
| StringLoops.EncodeStored | crates/compact-core/src/codecs/v3/string.rs:181-188 | the length-prefixing loop |
| StringLoops.ReadTexts | crates/compact-core/src/codecs/v3/string.rs:190-210 | the reading loop of stored strings and dictionary entries |
| StringLoops.DecodeStored | crates/compact-core/src/codecs/v3/string.rs:190-210 | the reading loop and the trailing-byte check |
| StringLoops.EncodePrefix | crates/compact-core/src/codecs/v3/string.rs:212-231 | the loop with the previous string |
| StringLoops.DecodePrefix | crates/compact-core/src/codecs/v3/string.rs:233-262 | the loop with cursor and previous string |
| StringLoops.EncodeDictionary | crates/compact-core/src/codecs/v3/string.rs:264-289 | one pass with a hash map builds the dictionary in order of first occurrence, the ids, and the cardinality error |
| Columns.RestoreIff | crates/compact-core/src/codecs/v3/numeric.rs:149-161 | validity bits and values determine the nullable cells, and the cells them |
| Columns.SplitIff | crates/compact-core/src/codecs/v3/boolean.rs:103-143 | a payload splits exactly into the written validity bitmap and the values |
| Columns.StatisticsRoundTrip | crates/compact-core/src/statistics.rs:18-65 | statistics in range decode to themselves |
| Columns.StatisticsMean | crates/compact-core/src/io/v3.rs:403-437 | the statistics of a column are the least and the greatest number it has, how many rows hold true, and how many different strings it has |
| Columns.EncodeColumnExists | crates/compact-core/src/io/v3.rs:304-332 | which codecs encode a column: the bitmap booleans, the delta codecs the non-decreasing numbers, the dictionary at most 4,096 different strings, the other codecs of a type every column of it |
| Columns.DecodedIsDeclared | crates/compact-core/src/io/v3.rs:318-332 | on arbitrary bytes a decoded column has the declared type, row count and null count and its true statistics |
| Columns.DecodeColumnIff | crates/compact-core/src/io/v3.rs:318-332 | on arbitrary bytes: metadata and payload decode to a column exactly when they declare its type, rows, nulls, size and true statistics, and the payload is its validity bitmap, if it can have nulls, and its values under the declared codec |
| Columns.ColumnRoundTrip | crates/compact-core/src/io/v3.rs:304-332 | a column with nulls decodes to itself under every codec that can express it, passing both statistics checks, exactly when its rows and its run-length strings are within the decoders' limits |
| ColumnFormat.DecodeIff | crates/compact-core/src/format/v3.rs:86-180 | column metadata decodes exactly from the bytes it encodes to |
| ColumnSelect.CollectShows | crates/compact-core/src/codecs/v3/numeric.rs:163-194 | the collected column shows what the rows show, with nulls only where the schema allows them |
| ColumnSelect.CollectExists | crates/compact-core/src/codecs/v3/numeric.rs:163-194 | collecting a column fails exactly when a row has a value of another type, or none where the schema demands one |
| ColumnSelect.CollectValues | crates/compact-core/src/codecs/v3/string.rs:148-179 | the loop that splits rows into validity and values, or finds the row that does not fit |
| ColumnSelect.SelectAuto | crates/compact-core/src/io/v3.rs:334-377 | the candidate loop with its running best is the selection function |
| ColumnSelect.AutoIsBest | crates/compact-core/src/io/v3.rs:334-377 | among all codecs, auto picks the one whose encoded metadata and payload take the fewest bytes, and of several the first in the order of the column's type; it fails exactly when no codec at all encodes the column |
| ColumnSelect.EncodedRoundTrip | crates/compact-core/src/io/v3.rs:304-332 | whichever codec is chosen, the chunk carries the schema's name and type and decodes to the column exactly within the decoders' limits for that codec |
| Cmp4Format.HeaderOkIff | crates/compact-core/src/format/v4.rs:60-107 | the file header is accepted with an empty payload exactly when it is the written one |
| Cmp4Format.DecodeFooterIff | crates/compact-core/src/format/v4.rs:152-296 | a footer index decodes exactly from the bytes that appending it writes |
| Cmp4Format.IndexIsSound | crates/compact-core/src/format/v4.rs:342-419 | on arbitrary bytes a decoded index numbers its groups in order, lets their rows follow each other, and keeps every group in front of the footer and every column inside its group under its own name |
| Cmp4Format.AppendedDecodes | crates/compact-core/src/format/v4.rs:152-296 | an appended footer is read back with its offset |
| Cmp4Format.FindRowGroupByRow | crates/compact-core/src/format/v4.rs:299-307 | binary search finds the one group that owns a row, exactly for the rows of the file |
| RowGroups.ReadGroupIff | crates/compact-core/src/io/v4.rs:259-388 | a row group is recovered from exactly its own bytes, with checksum, numbering, distinct names and readable statistics |
| Cmp4Recovery.RecoverIff | crates/compact-core/src/io/v4.rs:217-257 | recovery finds exactly the longest run of consecutive well-formed row groups behind the header |
| Cmp4Recovery.FooterIsNoGroup | crates/compact-core/src/io/v4.rs:228-240 | footer bytes are never taken for a further row group while there are fewer than 2^32 |
| Cmp4Recovery.RecoverCutFile | crates/compact-core/src/io/v4.rs:217-257 | a file cut anywhere at or behind its header recovers exactly the groups that end by the cut, with the written footer's entries |
| Cmp4Recovery.RecoverWholeFile | crates/compact-core/src/io/v4.rs:217-257 | recovery of a whole file rebuilds the written footer and stops in front of it |
| Cmp4Recovery.RecoverRowGroup | crates/compact-core/src/io/v4.rs:259-388 | the column loop builds the index entry with its absolute offsets |
| Cmp4Recovery.RecoverFilePrefix | crates/compact-core/src/io/v4.rs:217-257 | the loop over row groups with the row-count overflow error |
| Cmp4Validate.FileValidates | crates/compact-core/src/io/v4.rs:181-210 | a file made of well-formed groups validates to exactly its footer |
| Cmp4Validate.ValidateIff | crates/compact-core/src/io/v4.rs:181-210 | validation accepts exactly the files that are a header, groups with their own numbers and their own checksums without gaps between them, and the footer that indexes them |
| Cmp4Validate.VerifyGroupIff | crates/compact-core/src/io/v4.rs:732-812 | a group is verified exactly when its header with the entry's numbers, and the checksum of its bytes behind them, stand where the entry says |
| Cmp4Validate.GroupsMakeFile | crates/compact-core/src/format/v4.rs:342-419 | the index of well-formed groups is valid, and readable exactly up to 1,000,000 groups |
| Cmp4Validate.ValidateFile | crates/compact-core/src/io/v4.rs:181-210 | the contiguity loop |
| Cmp4Pushdown.PushdownIsExact | crates/compact-core/src/io/v4.rs:126-168 | on arbitrary bytes, wherever the full scan succeeds: a projection and a predicate succeed exactly when the names are different columns of the schema and the predicate suits its column; the result is the rows of the full scan that the predicate accepts, in order, each with the cells of the requested names in the requested order; each group is scanned or pruned |
| Cmp4Pushdown.SelectProjectionIff | crates/compact-core/src/io/v4.rs:681-704 | a projection selects the columns of its names, in their order, exactly when the names are pairwise different columns of the schema; no names select all columns |
| Cmp4Pushdown.PrunesExactly | crates/compact-core/src/io/v4.rs:126-168 | a scan prunes exactly the groups whose rows exclude a match: those without a null for a null test, and those whose least and greatest number exclude every satisfying number for a comparison |
| Cmp4Pushdown.PrunedIff | crates/compact-core/src/io/v4.rs:647-679 | one group is pruned exactly when its own rows exclude a match by their nulls or by their range |
| Cmp4Pushdown.ScansOnlySealed | crates/compact-core/src/io/v4.rs:732-812 | a scan that succeeds has read no group whose bytes do not have their own checksum |
| Cmp4Scan.DecodedAgrees | crates/compact-core/src/io/v4.rs:518-569 | a column is shown only from a chunk whose metadata agree with the schema, with the index entry and with the group's row count |
| Cmp4Scan.PruneSound | crates/compact-core/src/io/v4.rs:647-679 | pruning never fails where decoding succeeds and never drops a matching row |
| Cmp4Scan.ScanGroupIs | crates/compact-core/src/io/v4.rs:467-645 | a group scanned under a projection and a predicate gives its matching rows, projected |
| Cmp4Scan.EntryIsTrue | crates/compact-core/src/io/v4.rs:518-569 | the footer entry of a decoded column carries its true statistics and null count |
| Cmp4Scan.ScanJsonl | crates/compact-core/src/io/v4.rs:126-168 | the loop over row groups with its counters is the scan function |
| Cmp4Encode.Lossless | crates/compact-core/src/io/v4.rs:76-118 | a written file decodes to the rows it was made from, in order and cell by cell, missing fields as null, whatever codecs were chosen, if and only if there are at most 1,000,000 row groups and each is within the decoders' limits for the codecs it got |
| Cmp4Encode.EncodedIsFile | crates/compact-core/src/io/v4.rs:76-113 | the encoder's output is the file of its row groups, whatever their size, so it validates and every cut of it is recovered |
| Cmp4Layout.GroupAt | crates/compact-core/src/io/v4.rs:76-100 | group k of a written file has number k and the rows from k times the requested size on, exactly that many unless it is the last; there are no other groups |
| Cmp4Layout.FileExists | crates/compact-core/src/io/v4.rs:76-113 | a file is written exactly when groups have rows, the schema is valid and every column of every group can be written |
| Cmp4Layout.ChunkExists | crates/compact-core/src/io/v4.rs:390-465 | a column of a group can be written exactly when every row fits it and its codec, or some codec under auto, encodes it |
| Cmp4Encode.EncodeRowGroup | crates/compact-core/src/io/v4.rs:390-465 | bytes and index entry of a row group grow column by column |
| Cmp4Encode.EncodeJsonl | crates/compact-core/src/io/v4.rs:76-113 | the loop over the chunks of the rows |
| Postings.OrdinalInside | crates/compact-core/src/search/postings.rs:409-432 | an entry number is below the expected count exactly when its ordinal is below the document count, so multiplying cannot overflow |
| PostingSeek.RoundTrip | crates/compact-core/src/search/postings.rs:45-120 | a posting list decodes to itself exactly when it has at most 1,000,000 entries |
| PostingForm.DecodeIff | crates/compact-core/src/search/postings.rs:117-310 | on arbitrary bytes, a posting list decodes exactly from its own form: magic, version and checksum, six lengths, the sections of its postings in canonical varints, and a skip table within its checks |
| Postings.OpenedIff | crates/compact-core/src/search/postings.rs:174-197 | an envelope opens to a body exactly when it carries that body's own checksum |
| PostingSeek.SeekIsLinear | crates/compact-core/src/search/postings.rs:128-164 | for every skip step and document, seeking finds exactly what a scan of the whole list finds |
| PostingSeek.ParsesBody | crates/compact-core/src/search/postings.rs:174-267 | parsing an encoded body gives back its sections and a valid skip table |
| PostingSeek.LinearFinds | crates/compact-core/src/search/postings.rs:128-164 | a scan finds the posting of the document, or none when there is none |
| PostingLoops.EncodePostings | crates/compact-core/src/search/postings.rs:45-114 | the loop that grows the three sections and the skip table |
| PostingLoops.DecodeAllPostings | crates/compact-core/src/search/postings.rs:269-310 | the decoding loop over three cursors |
| PostingLoops.SeekDoc | crates/compact-core/src/search/postings.rs:128-164 | the seek loop from the skip entry's cursors |
| PostingLoops.SkipBeforeOrAt | crates/compact-core/src/search/postings.rs:312-318 | binary search finds the last entry at or before the target |
| PostingLoops.ValidateIndex | crates/compact-core/src/search/postings.rs:409-461 | the index checks, with every product below 2^64 |
| PostingLoops.ValidatePostings | crates/compact-core/src/search/postings.rs:321-350 | comparing neighbours decides strict order of documents and positions |
| Dictionary.LookupIsMap | crates/compact-core/src/search/dictionary.rs:89-96 | looking up a term in an encoded dictionary is looking it up in the finite map, for present and absent terms |
| Dictionary.SeekIsMap | crates/compact-core/src/search/dictionary.rs:99-106 | seeking a document under a term is scanning the term's postings in the map |
| Dictionary.ParsesBody | crates/compact-core/src/search/dictionary.rs:124-186 | an encoded dictionary parses to its entries and payloads |
| PostingForm.DictionaryIff | crates/compact-core/src/search/dictionary.rs:124-318 | on arbitrary bytes, a dictionary is read exactly from its own form: magic, version and checksum, three lengths, entries of increasing terms whose posting lists follow each other without gaps, and these lists |
| Dictionary.EncodeExists | crates/compact-core/src/search/dictionary.rs:43-81 | a dictionary is written exactly when its terms are not empty and strictly increase and every posting list is valid |
| Dictionary.LessIff | crates/compact-core/src/search/dictionary.rs:204-226 | terms are ordered by their first different byte, and a proper prefix comes first |
| Dictionary.LessTransitive | crates/compact-core/src/search/dictionary.rs:204-226 | the order of terms is transitive |
| Dictionary.LessTotal | crates/compact-core/src/search/dictionary.rs:204-226 | the order of terms is total and strict |
| DictionaryLoops.EncodeDictionary | crates/compact-core/src/search/dictionary.rs:43-81 | metadata and payloads grow side by side with their offsets |
| DictionaryLoops.FindTerm | crates/compact-core/src/search/dictionary.rs:188-194 | binary search finds the entry of the term, or that there is none |
| DictionaryLoops.ValidateTerms | crates/compact-core/src/search/dictionary.rs:204-226 | comparing neighbours decides the order of the terms |
| DictionaryLoops.DecodedIncrease | crates/compact-core/src/search/dictionary.rs:228-297 | decoded entries are in strictly increasing order, which binary search needs |
| DictionaryLoops.LookupTerm | crates/compact-core/src/search/dictionary.rs:89-96 | lookup by binary search is the lookup function, on arbitrary bytes |
| DictionaryLoops.SeekTermDoc | crates/compact-core/src/search/dictionary.rs:99-106 | seek by binary search and skip table is the seek function, on arbitrary bytes |
| Query.AndDocIds | crates/compact-core/src/search/query.rs:31-58 | on arbitrary bytes: an error exactly when a lookup fails before an empty list is met, otherwise the strictly increasing list of exactly the documents that every term has |
| Query.IncreasingUnique | crates/compact-core/src/search/query.rs:48-57 | strictly increasing lists with the same members are equal, so sorting the lists by length does not change the answer |
| Query.TopKByTermFrequency | crates/compact-core/src/search/query.rs:86-124 | on arbitrary bytes: an error exactly when a lookup fails, otherwise the first k documents by summed frequency descending and document ascending, with their true scores |
| Query.ScoreCounts | crates/compact-core/src/search/query.rs:86-124 | the score of a document is the number of occurrences of the terms in it, counted by term and position |
| Query.HasAdjacentPhrase | crates/compact-core/src/search/query.rs:61-83 | on arbitrary bytes: whether both terms occur in the document at neighbouring positions, with the exact condition of an error |
| Query.TermContainsDoc | crates/compact-core/src/search/query.rs:127-129 | on encoder output the skip-table check agrees with membership in the term's postings |
| Query.EncodedServes | crates/compact-core/src/search/query.rs:22-28 | an encoded dictionary answers every lookup, with the list the map has |
| Query.LookedUp | crates/compact-core/src/search/dictionary.rs:89-96 | on arbitrary bytes a list that is looked up is strictly increasing in documents and positions |

## Left out

- Which error a failing call reports, error messages, and which of several racing errors wins.
- Real threads, channels, readers and writers: the pool is a step machine, an in-memory writer never fails, and a read
  error is a flag of the line source. A poisoned lock is unreachable because no worker panics while it holds the lock.
- JSON and YAML parsing and printing: rows are maps of typed values, rendered rows are lists of named values.
- The internals of CRC32 and BLAKE3.
- CMP1 files beyond their frame, and CMP3 files: their single row group is the CMP4 row group with another envelope.
- Inspection without a schema (`inspect_jsonl`, `inspect_footer`, `inspect_postings`, `inspect_dictionary`): they return
  fields of the parsed values the model already has.
- Schema evolution, metadata migration, snapshots, zigzag and signed deltas: independent one-pass checks.
- Integer accumulators of scores and row counts inside one process (`hit.score`, `row_count`): sums of sizes of values
  in memory, which stay below 2^64.
- Query.TermContainsDoc: says what the answer means for encoder output only, as the source does not compare the skip
  table with the documents.
- PostingSeek.SeekIsLinear: for encoder output, as the source does not compare the skip table with the documents.
- Bitpack.EncodeU64: setting a bit with `|=` is an addition in the model, the bit being clear; likewise in
  Bitmap.Encode and in the varint loops, whose shifts are divisions and multiplications by powers of two.
- Performance, allocation sizes and capacities.
