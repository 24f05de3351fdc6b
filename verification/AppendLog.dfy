/**
  The append log (crates/compact-core/src/streaming/append.rs): recover the valid prefix, go on writing
  behind it, and replay everything.
*/
module AppendLog {
  import opened Wrappers
  import opened Bytes
  import opened Limits
  import opened BlockStream
  import opened Lines
  import opened Writer
  import opened BlockWriter
  import opened Recovery
  import opened Reader

  /**
    On these row groups the codec is lossless: a group that it encodes, it decodes to the same text. (Rendering fixes
    field order and spacing, so a column-block codec is lossless on canonical lines only.)
  */
  ghost predicate Lossless(codec: RowCodec, groups: seq<seq<Line>>) {
    forall k :: 0 <= k < |groups| && codec.encode(Bodies(groups[k])).Some? ==>
      codec.decode(codec.encode(Bodies(groups[k])).value) == Some(Concat(groups[k]))
  }

  /** The state from which an append goes on: a new stream, or the end of the recovered prefix. */
  function ResumeAt(existing: seq<byte>, r: AppendRecovery): WriterState
    requires r.validLen <= |existing| && r.totalRows < U64_LIMIT
  {
    if r.validLen == 0 then Fresh()
    else WriterState(existing[..r.validLen], [], |r.blocks|, r.totalRows, AsU64(r.validLen), [])
  }

  /** `append_jsonl_stream`; `readOk` as for `EncodeStream`. */
  function Append(crc: Checksum, codec: RowCodec, o: BlockOptions, existing: seq<byte>, raws: seq<Line>,
                  readOk: bool): Option<seq<byte>> {
    match Recover(crc, existing)
    case None => None
    case Some(r) =>
      if !ValidOptions(o) then None
      else
        match WriteLines(crc, codec, o, ResumeAt(existing, r), raws)
        case None => None
        case Some(w) =>
          if !readOk then None
          else match Flush(crc, codec, w) case None => None case Some(w') => Some(w'.output)
  }

  /** The resumed writer once it has flushed everything. */
  function AppendWriter(crc: Checksum, codec: RowCodec, o: BlockOptions, existing: seq<byte>,
                        raws: seq<Line>): Option<WriterState> {
    match Recover(crc, existing)
    case None => None
    case Some(r) =>
      match WriteLines(crc, codec, o, ResumeAt(existing, r), raws) case None => None case Some(w) => Flush(crc, codec, w)
  }

  /** `replay_jsonl_append_stream` */
  function Replay(crc: Checksum, codec: RowCodec, data: seq<byte>): Option<seq<byte>> {
    match Recover(crc, data)
    case None => None
    case Some(r) => DecodeStream(crc, codec, data[..r.validLen], false)
  }

  /** The append call on the writer object. */
  method AppendJsonlStream(crc: Checksum, codec: RowCodec, options: BlockOptions, existing: seq<byte>, raws: seq<Line>,
                           readOk: bool)
    returns (bytes: Option<seq<byte>>)
    ensures bytes == Append(crc, codec, options, existing, raws, readOk)
  {
    hide Recover, Flush, WriteLines;
    var recovery := RecoverAppendStream(crc, existing);
    if recovery.None? {
      return None;
    }
    if options.maxRows == 0 || options.maxBytes == 0 {
      return None;
    }
    var writer := new JsonlBlockWriter(crc, codec, options, ResumeAt(existing, recovery.value));
    var ok := WriteAll(writer, raws);
    if !ok || !readOk {
      return None;
    }
    bytes := writer.FinishWithoutFooter();
  }

  // ----- what is on disk -----

  /** The trustworthy blocks of a buffer. */
  function BlocksIn(crc: Checksum, data: seq<byte>): seq<Block> {
    if HeaderOk(data) then ScanFrames(crc, data, STREAM_HEADER_LEN, 0, 0).blocks else []
  }

  /** An unsealed stream that ends behind its blocks scans to exactly these blocks. */
  lemma {:induction false} UnsealedScans(crc: Checksum, bs: seq<Block>)
    requires Chain(bs, 0, 0)
    ensures HeaderOk(StreamBytes(crc, bs)) && ScanFrom(crc, StreamBytes(crc, bs), []) == (bs, StepEnd)
  {
    assert Position(crc, []) == STREAM_HEADER_LEN && TotalRows([]) == 0;
    var data := StreamBytes(crc, bs);
    assert |data| == Position(crc, bs);
    assert ReadStep(crc, data, bs) == StepEnd;
    hide HeaderOk, ReadStep, StreamBytes, Index, BlocksBytes, Chain, Position;
    assert data + [] == data;
    StreamPlus(crc, data, bs, []);
    assert [] + bs == bs;
    ScanFromFinds(crc, data, [], bs);
    assert bs + [] == bs;
  }

  /** Behind the blocks a reader accepts stands nothing, or a frame above its size limit: these blocks are recovered. */
  lemma {:induction false} StreamRecovers(crc: Checksum, kept: seq<Block>, lost: seq<Block>)
    requires Chain(kept, 0, 0) && |kept| <= MAX_STREAM_BLOCKS && |StreamBytes(crc, kept + lost)| < U64_LIMIT
    requires lost != [] ==> |BlockPayload(lost[0])| > MAX_ENCODED_BLOCK_BYTES
    ensures var data := StreamBytes(crc, kept + lost);
            && HeaderOk(data) && BlocksIn(crc, data) == kept
            && Recover(crc, data) == (if TotalRaw(kept) < U64_LIMIT then Some(Recovered(crc, kept, |data|)) else None)
            && |StreamBytes(crc, kept)| <= |data| && (|StreamBytes(crc, kept)| == |data| <==> lost == [])
  {
    var data := StreamBytes(crc, kept + lost);
    StreamSplit(crc, kept, lost);
    hide HeaderOk, StreamBytes, BlocksBytes, BlockFrame, BlockPayload, Chain, Recover, ScanFrames, NextFrame, TotalRaw;
    StreamPlus(crc, data, kept, BlocksBytes(crc, lost));
    if lost == [] {
      NoFrameAtEnd(crc, data, |kept|);
    } else {
      AtConcat(data, Position(crc, kept), BlockFrame(crc, lost[0]), BlocksBytes(crc, lost[1..]));
      OversizedFrame(crc, data, Position(crc, kept), |kept|, lost[0]);
    }
    ScanStops(crc, data, kept);
    ScanDecides(crc, data, kept);
  }

  lemma {:induction false} StreamSplit(crc: Checksum, a: seq<Block>, b: seq<Block>)
    ensures StreamBytes(crc, a + b) == StreamBytes(crc, a) + BlocksBytes(crc, b)
    ensures |StreamBytes(crc, a)| == Position(crc, a)
    ensures BlocksBytes(crc, b) == if b == [] then [] else BlockFrame(crc, b[0]) + BlocksBytes(crc, b[1..])
    ensures BlocksBytes(crc, b) == [] <==> b == []
  {
    hide BlockFrame, StreamHeader;
    BlocksAppend(crc, a, b);
    assert StreamHeader() + (BlocksBytes(crc, a) + BlocksBytes(crc, b)) == (StreamHeader() + BlocksBytes(crc, a)) + BlocksBytes(crc, b);
  }

  lemma {:induction false} UnsealedDecodes(crc: Checksum, codec: RowCodec, bs: seq<Block>)
    requires Chain(bs, 0, 0)
    ensures DecodeStream(crc, codec, StreamBytes(crc, bs), false) == Texts(codec, bs)
  {
    hide HeaderOk, ScanFrom, DecodeFrom, StreamBytes, Texts, Chain;
    UnsealedScans(crc, bs);
    DecodeIsScan(crc, codec, StreamBytes(crc, bs), false, []);
  }

  lemma {:induction false} HeldPrefix(crc: Checksum, data: seq<byte>, bs: seq<Block>)
    requires HeaderOk(data) && Holds(crc, data, bs)
    ensures |StreamBytes(crc, bs)| <= |data| && data[..|StreamBytes(crc, bs)|] == StreamBytes(crc, bs)
  {
    hide HeaderOk, BlocksBytes, StreamHeader;
    HeaderOkIff(data);
    AtConcat(data, 0, StreamHeader(), BlocksBytes(crc, bs));
    var n := |StreamBytes(crc, bs)|;
    assert data[0..n] == data[..n];
  }

  /** What a successful recovery of a buffer with a valid header leaves: a stream of its trustworthy blocks. */
  lemma {:induction false} RecoveredPrefix(crc: Checksum, data: seq<byte>)
    requires |data| < U64_LIMIT && HeaderOk(data) && Recover(crc, data).Some?
    ensures var bs := BlocksIn(crc, data);
            && Recover(crc, data) == Some(Recovered(crc, bs, |data|))
            && Chain(bs, 0, 0) && |bs| <= MAX_STREAM_BLOCKS && TotalRaw(bs) < U64_LIMIT && TotalRows(bs) < U64_LIMIT
            && |StreamBytes(crc, bs)| <= |data| && data[..|StreamBytes(crc, bs)|] == StreamBytes(crc, bs)
  {
    var bs := BlocksIn(crc, data);
    RecoveredMeansNoOverflow(crc, data);
    hide HeaderOk, ScanFrames, StreamBytes, Recover, Chain, Index, Holds;
    ScanDecides(crc, data, bs);
    ScannedPrefix(crc, data);
    IndexSums(crc, bs, STREAM_HEADER_LEN, 0, 0);
    HeldPrefix(crc, data, bs);
  }

  /** Replay yields the texts of the trustworthy blocks, whatever follows them in the buffer. */
  lemma {:induction false} ReplayIsTexts(crc: Checksum, codec: RowCodec, data: seq<byte>)
    requires |data| < U64_LIMIT && HeaderOk(data) && Recover(crc, data).Some?
    ensures Replay(crc, codec, data) == Texts(codec, BlocksIn(crc, data))
  {
    hide HeaderOk, StreamBytes, Recover, Chain, Texts, DecodeStream, BlocksIn, TotalRaw, TotalRows, Index;
    RecoveredPrefix(crc, data);
    UnsealedDecodes(crc, codec, BlocksIn(crc, data));
  }

  // ----- appending -----

  /** The blocks an append of `raws` behind `before` adds. */
  function AddedBlocks(codec: RowCodec, o: BlockOptions, before: seq<Block>, raws: seq<Line>): Option<seq<Block>> {
    match Split(o, raws)
    case None => None
    case Some(groups) => BlocksOf(codec, groups, |before|, TotalRows(before))
  }

  lemma {:induction false} ResumedState(crc: Checksum, existing: seq<byte>)
    requires |existing| < U64_LIMIT && Recover(crc, existing).Some?
    ensures var before := BlocksIn(crc, existing);
            && Chain(before, 0, 0) && TotalRows(before) < U64_LIMIT && |StreamBytes(crc, before)| < U64_LIMIT
            && var start := ResumeAt(existing, Recover(crc, existing).value);
               && |before| <= MAX_STREAM_BLOCKS
               && start == WriterState(StreamBytes(crc, before), [], |before|, TotalRows(before), |StreamBytes(crc, before)|, [])
  {
    if HeaderOk(existing) {
      hide HeaderOk, Recover, BlocksIn, Index;
      RecoveredPrefix(crc, existing);
    } else {
      assert StreamBytes(crc, []) == StreamHeader() + [];
    }
  }

  /** A writer that was resumed behind the blocks `before` and has added blocks: it has the metadata of these only. */
  function WriterBehind(crc: Checksum, before: seq<Block>, added: seq<Block>): WriterState
    requires TotalRows(before) + TotalRows(added) < U64_LIMIT && |StreamBytes(crc, before + added)| < U64_LIMIT
  {
    WriterState(StreamBytes(crc, before + added), [], |before| + |added|, TotalRows(before) + TotalRows(added),
                |StreamBytes(crc, before + added)|, Index(crc, added, |StreamBytes(crc, before)|))
  }

  /** Extending a resumed writer by blocks extends the stream by them. */
  lemma {:induction false} ExtendedOutput(crc: Checksum, start: WriterState, before: seq<Block>, added: seq<Block>)
    requires TotalRows(before) < U64_LIMIT && |StreamBytes(crc, before)| < U64_LIMIT
    requires start == WriterState(StreamBytes(crc, before), [], |before|, TotalRows(before), |StreamBytes(crc, before)|, [])
    requires Room(crc, start, added)
    ensures |before| + |added| <= MAX_STREAM_BLOCKS && TotalRows(before) + TotalRows(added) < U64_LIMIT
    ensures |StreamBytes(crc, before + added)| < U64_LIMIT
    ensures Extended(crc, start, added) == WriterBehind(crc, before, added)
    ensures Extended(crc, start, added).output == StreamBytes(crc, before + added)
  {
    StreamSplit(crc, before, added);
    hide StreamBytes, Index, BlocksBytes, TotalRows;
    var offset := |StreamBytes(crc, before)|;
    assert [] + Index(crc, added, offset) == Index(crc, added, offset);
  }

  /** The resumed writer takes exactly the added blocks, when it has room for them. */
  lemma {:induction false} AppendExtends(crc: Checksum, codec: RowCodec, o: BlockOptions, existing: seq<byte>,
                                         raws: seq<Line>)
    requires |existing| < U64_LIMIT && Recover(crc, existing).Some? && ValidOptions(o)
    requires Append(crc, codec, o, existing, raws, true).Some?
    ensures var before := BlocksIn(crc, existing);
            var start := ResumeAt(existing, Recover(crc, existing).value);
            var added := AddedBlocks(codec, o, before, raws);
            && added.Some? && Room(crc, start, added.value)
            && AppendWriter(crc, codec, o, existing, raws) == Some(Extended(crc, start, added.value))
            && Append(crc, codec, o, existing, raws, true).value == Extended(crc, start, added.value).output
  {
    ResumedState(crc, existing);
    hide HeaderOk, Recover, BlocksIn, Chain, WriteLines, Flush, Split, BlocksOf, EmitAll, ResumeAt, StreamBytes;
    hide TotalRows, Extended, Room;
    var before := BlocksIn(crc, existing);
    var start := ResumeAt(existing, Recover(crc, existing).value);
    WriteAndFlush(crc, codec, o, start, raws);
    EmitAllWrites(crc, codec, start, Split(o, raws).value);
  }

  /**
    Appending writes the trustworthy blocks found before, then the blocks of the new rows, and nothing else; the
    writer's numbers go on behind the old blocks, and its metadata are those of the new ones, with their offsets.
  */
  lemma {:induction false} AppendIs(crc: Checksum, codec: RowCodec, o: BlockOptions, existing: seq<byte>,
                                    raws: seq<Line>)
    requires |existing| < U64_LIMIT && Recover(crc, existing).Some? && ValidOptions(o)
    requires Append(crc, codec, o, existing, raws, true).Some?
    ensures var before := BlocksIn(crc, existing);
            var added := AddedBlocks(codec, o, before, raws);
            && added.Some? && Append(crc, codec, o, existing, raws, true).value == StreamBytes(crc, before + added.value)
            && |before| + |added.value| <= MAX_STREAM_BLOCKS
            && TotalRows(before) + TotalRows(added.value) < U64_LIMIT
            && |StreamBytes(crc, before + added.value)| < U64_LIMIT
            && AppendWriter(crc, codec, o, existing, raws) == Some(WriterBehind(crc, before, added.value))
  {
    ResumedState(crc, existing);
    AppendExtends(crc, codec, o, existing, raws);
    hide HeaderOk, Recover, BlocksIn, Chain, Append, AppendWriter, AddedBlocks, ResumeAt, StreamBytes, TotalRows;
    hide BlocksBytes, Index, Extended;
    hide Room, WriterBehind;
    var before := BlocksIn(crc, existing);
    ExtendedOutput(crc, ResumeAt(existing, Recover(crc, existing).value), before, AddedBlocks(codec, o, before, raws).value);
  }

  /** An append fails only for a reason its input, its reader or its codec has, or at one of the writer's own limits. */
  lemma {:induction false} AppendExists(crc: Checksum, codec: RowCodec, o: BlockOptions, existing: seq<byte>,
                                        raws: seq<Line>, readOk: bool)
    requires |existing| < U64_LIMIT
    ensures Append(crc, codec, o, existing, raws, readOk).Some? <==>
            var before := BlocksIn(crc, existing);
            && Recover(crc, existing).Some? && o.maxRows > 0 && o.maxBytes > 0 && readOk
            && Split(o, raws).Some? && Encodes(codec, Split(o, raws).value)
            && AddedBlocks(codec, o, before, raws).Some?
            && var added := AddedBlocks(codec, o, before, raws).value;
               && |before| + |added| <= MAX_STREAM_BLOCKS
               && TotalRows(before) + TotalRows(added) < U64_LIMIT
               && |StreamBytes(crc, before + added)| < U64_LIMIT
  {
    hide HeaderOk, Recover, BlocksIn, Chain, WriteLines, Flush, Split, BlocksOf, EmitAll, ResumeAt, StreamBytes;
    hide TotalRows, Encodes, GoodGroups;
    if Recover(crc, existing).Some? && ValidOptions(o) {
      ResumedState(crc, existing);
      var before := BlocksIn(crc, existing);
      var start := ResumeAt(existing, Recover(crc, existing).value);
      WriteAndFlush(crc, codec, o, start, raws);
      if Split(o, raws).Some? {
        var groups := Split(o, raws).value;
        SplitGood(o, raws);
        BlocksExist(codec, o, groups, |before|, TotalRows(before));
        EmitAllWrites(crc, codec, start, groups);
        if BlocksOf(codec, groups, |before|, TotalRows(before)).Some? {
          StreamSplit(crc, before, BlocksOf(codec, groups, |before|, TotalRows(before)).value);
        }
      }
    }
  }

  // ----- frames above the size limit -----

  /** The readers accept every frame; the writer does not look at the size of a frame. */
  ghost predicate FramesFit(bs: seq<Block>) {
    forall k :: 0 <= k < |bs| ==> |BlockPayload(bs[k])| <= MAX_ENCODED_BLOCK_BYTES
  }

  /** How many of the blocks a reader gets to: those in front of the first frame above the size limit. */
  function Readable(bs: seq<Block>): (m: nat)
    ensures m <= |bs|
  {
    if bs == [] || |BlockPayload(bs[0])| > MAX_ENCODED_BLOCK_BYTES then 0 else 1 + Readable(bs[1..])
  }

  lemma {:induction false} ReadableFits(bs: seq<Block>)
    ensures FramesFit(bs[..Readable(bs)])
    ensures Readable(bs) < |bs| ==> |BlockPayload(bs[Readable(bs)])| > MAX_ENCODED_BLOCK_BYTES
    ensures FramesFit(bs) <==> Readable(bs) == |bs|
    decreases |bs|
  {
    hide BlockPayload;
    if bs != [] && |BlockPayload(bs[0])| <= MAX_ENCODED_BLOCK_BYTES {
      var m := Readable(bs[1..]);
      ReadableFits(bs[1..]);
      var front := bs[..m + 1];
      forall k | 0 <= k < |front| ensures |BlockPayload(front[k])| <= MAX_ENCODED_BLOCK_BYTES {
        if k > 0 {
          assert bs[1..][..m][k - 1] == front[k];
        }
      }
      if m == |bs[1..]| {
        assert bs[..m + 1] == bs;
      }
    }
  }

  /** The blocks of the first row groups are the first blocks. */
  lemma {:induction false} BlocksOfPrefix(codec: RowCodec, groups: seq<seq<Line>>, index: nat, row: nat, m: nat)
    requires BlocksOf(codec, groups, index, row).Some? && m <= |groups|
    ensures BlocksOf(codec, groups[..m], index, row) == Some(BlocksOf(codec, groups, index, row).value[..m])
    decreases |groups|
  {
    hide BlockOf, Concat;
    if groups != [] {
      var b := BlockOf(codec, Concat(groups[0]), AsU64(index), AsU64(row)).value;
      var rest := BlocksOf(codec, groups[1..], index + 1, row + b.rows).value;
      assert BlocksOf(codec, groups, index, row).value == [b] + rest;
      BlocksOfPrefix(codec, groups[1..], index + 1, row + b.rows, if m > 0 then m - 1 else 0);
      if m > 0 {
        assert groups[..m][1..] == groups[1..][..m - 1] && ([b] + rest)[..m] == [b] + rest[..m - 1];
      }
    }
  }

  /** The row groups whose blocks a reader gets to. */
  function ReadableGroups(codec: RowCodec, groups: seq<seq<Line>>, index: nat, row: nat): seq<seq<Line>> {
    match BlocksOf(codec, groups, index, row) case None => [] case Some(bs) => groups[..Readable(bs)]
  }

  lemma {:induction false} AddedGroups(codec: RowCodec, o: BlockOptions, before: seq<Block>, raws: seq<Line>)
    requires AddedBlocks(codec, o, before, raws).Some?
    ensures Split(o, raws).Some?
    ensures var (groups, added) := (Split(o, raws).value, AddedBlocks(codec, o, before, raws).value);
            && |groups| == |added| && BlocksOf(codec, groups, |before|, TotalRows(before)) == Some(added)
            && ReadableGroups(codec, groups, |before|, TotalRows(before)) == groups[..Readable(added)]
  {
    hide Split, BlocksOf, TotalRows, Readable;
  }

  /** What a reader accepts of a stream that an append left: all blocks from before and the new ones it gets to. */
  function KeptBlocks(before: seq<Block>, added: seq<Block>): seq<Block> {
    before + added[..Readable(added)]
  }

  lemma {:induction false} KeptChain(codec: RowCodec, o: BlockOptions, before: seq<Block>, raws: seq<Line>)
    requires Chain(before, 0, 0) && AddedBlocks(codec, o, before, raws).Some?
    requires var added := AddedBlocks(codec, o, before, raws).value;
             |before| + |added| <= MAX_STREAM_BLOCKS && TotalRows(before) + TotalRows(added) < U64_LIMIT
    ensures Chain(KeptBlocks(before, AddedBlocks(codec, o, before, raws).value), 0, 0)
  {
    hide Split, BlocksOf, Chain, TotalRows, BlockPayload;
    var groups, added := Split(o, raws).value, AddedBlocks(codec, o, before, raws).value;
    var m := Readable(added);
    BlocksOfPrefix(codec, groups, |before|, TotalRows(before), m);
    ReadableFits(added);
    assert added == added[..m] + added[m..];
    RowsAppend(added[..m], added[m..]);
    BlocksOfChain(codec, groups[..m], |before|, TotalRows(before));
    ChainAppend(before, added[..m], 0, 0);
  }

  lemma {:induction false} RowsAppend(a: seq<Block>, b: seq<Block>)
    ensures TotalRows(a + b) == TotalRows(a) + TotalRows(b) && TotalRaw(a + b) == TotalRaw(a) + TotalRaw(b)
  {
    BlocksAppend(_ => 0, a, b);
  }

  /**
    After an append recovery accepts the whole result, up to the first new frame above the size limit: then nothing is
    discarded exactly when every new frame is within it. It fails exactly when the raw sizes overflow.
  */
  lemma {:induction false} AppendRecovers(crc: Checksum, codec: RowCodec, o: BlockOptions, existing: seq<byte>,
                                          raws: seq<Line>)
    requires |existing| < U64_LIMIT && Recover(crc, existing).Some? && ValidOptions(o)
    requires Append(crc, codec, o, existing, raws, true).Some?
    ensures AddedBlocks(codec, o, BlocksIn(crc, existing), raws).Some?
    ensures var result := Append(crc, codec, o, existing, raws, true).value;
            var before := BlocksIn(crc, existing);
            var added := AddedBlocks(codec, o, before, raws).value;
            var kept := KeptBlocks(before, added);
            && result == StreamBytes(crc, before + added) && BlocksIn(crc, result) == kept
            && HeaderOk(result) && |result| < U64_LIMIT && Chain(kept, 0, 0)
            && Recover(crc, result) == (if TotalRaw(kept) < U64_LIMIT then Some(Recovered(crc, kept, |result|)) else None)
            && (|StreamBytes(crc, kept)| == |result| <==> FramesFit(added))
  {
    hide HeaderOk, Recover, BlocksIn, StreamBytes, Append, Chain, Index, AddedBlocks, TotalRaw, TotalRows, BlockPayload;
    var before := BlocksIn(crc, existing);
    ResumedState(crc, existing);
    AppendIs(crc, codec, o, existing, raws);
    var added := AddedBlocks(codec, o, before, raws).value;
    var m := Readable(added);
    ReadableFits(added);
    KeptChain(codec, o, before, raws);
    assert before + added == KeptBlocks(before, added) + added[m..];
    StreamRecovers(crc, KeptBlocks(before, added), added[m..]);
  }

  // ----- append and replay -----

  /** The replay of a buffer before an append; one without a valid header has none. */
  function OldText(crc: Checksum, codec: RowCodec, existing: seq<byte>): seq<byte> {
    match Replay(crc, codec, existing) case None => [] case Some(text) => text
  }

  lemma {:induction false} LosslessParts(codec: RowCodec, groups: seq<seq<Line>>)
    requires Lossless(codec, groups) && groups != []
    ensures Lossless(codec, groups[1..])
    ensures codec.encode(Bodies(groups[0])).Some? ==>
              codec.decode(codec.encode(Bodies(groups[0])).value) == Some(Concat(groups[0]))
  {
    hide Bodies, Concat;
  }

  lemma {:induction false} GroupText(codec: RowCodec, o: BlockOptions, group: seq<Line>, index: u64, row: u64)
    requires GoodGroup(o, group) && BlockOf(codec, Concat(group), index, row).Some?
    requires codec.encode(Bodies(group)).Some? ==> codec.decode(codec.encode(Bodies(group)).value) == Some(Concat(group))
    requires |Concat(group)| < U64_LIMIT && |group| < U64_LIMIT
    ensures BlockText(codec, BlockOf(codec, Concat(group), index, row).value) == Some(Concat(group))
  {
    RowsOfConcat(group);
    hide Concat, RowsOf;
    assert codec.encode(Bodies(group)).Some?;
  }

  /** The blocks of row groups on which the codec is lossless decode to the text of these groups. */
  lemma {:induction false} GroupsText(codec: RowCodec, o: BlockOptions, groups: seq<seq<Line>>, index: nat, row: nat)
    requires GoodGroups(o, groups) && Lossless(codec, groups)
    requires o.maxRows < U64_LIMIT && o.maxBytes < U64_LIMIT
    requires BlocksOf(codec, groups, index, row).Some?
    ensures Texts(codec, BlocksOf(codec, groups, index, row).value) == Some(Concat(Flatten(groups)))
    decreases |groups|
  {
    hide BlockOf, Concat, Lossless, BlockText, AllNormal, Flatten, AsU64;
    FlattenFirst(groups);
    if groups == [] {
      ConcatNothing();
    } else {
      var group, rest := groups[0], groups[1..];
      assert GoodGroup(o, group);
      LosslessParts(codec, groups);
      var b := BlockOf(codec, Concat(group), AsU64(index), AsU64(row)).value;
      GroupText(codec, o, group, AsU64(index), AsU64(row));
      GroupsText(codec, o, rest, index + 1, row + b.rows);
      var bs := BlocksOf(codec, groups, index, row).value;
      assert bs[0] == b && bs[1..] == BlocksOf(codec, rest, index + 1, row + b.rows).value;
      ConcatAppend(group, Flatten(rest));
    }
  }

  lemma {:induction false} FlattenFirst(groups: seq<seq<Line>>)
    ensures Flatten(groups) == if groups == [] then [] else groups[0] + Flatten(groups[1..])
  {
  }

  lemma {:induction false} TextsAppend(codec: RowCodec, a: seq<Block>, b: seq<Block>)
    ensures Texts(codec, a + b) ==
            match (Texts(codec, a), Texts(codec, b)) case (Some(x), Some(y)) => Some(x + y) case (_, _) => None
    decreases |a|
  {
    hide BlockText;
    if a == [] {
      assert a + b == b;
      if Texts(codec, b).Some? {
        assert [] + Texts(codec, b).value == Texts(codec, b).value;
      }
    } else {
      assert (a + b)[1..] == a[1..] + b;
      TextsAppend(codec, a[1..], b);
      if BlockText(codec, a[0]).Some? && Texts(codec, a[1..]).Some? && Texts(codec, b).Some? {
        var x, y, z := BlockText(codec, a[0]).value, Texts(codec, a[1..]).value, Texts(codec, b).value;
        assert x + (y + z) == (x + y) + z;
      }
    }
  }

  /** The raw sizes of the blocks add up to the size of the text. */
  lemma {:induction false} TextOfBlocks(codec: RowCodec, o: BlockOptions, groups: seq<seq<Line>>, index: nat, row: nat)
    requires GoodGroups(o, groups) && o.maxBytes < U64_LIMIT && BlocksOf(codec, groups, index, row).Some?
    ensures TotalRaw(BlocksOf(codec, groups, index, row).value) == |Concat(Flatten(groups))|
    decreases |groups|
  {
    hide BlockPayload, Concat, Flatten, RowsOf, AsU64;
    FlattenFirst(groups);
    if groups == [] {
      ConcatNothing();
    } else {
      assert GoodGroup(o, groups[0]);
      var b := BlockOf(codec, Concat(groups[0]), AsU64(index), AsU64(row)).value;
      assert b.rawSize == |Concat(groups[0])|;
      TextOfBlocks(codec, o, groups[1..], index + 1, row + b.rows);
      var bs := BlocksOf(codec, groups, index, row).value;
      assert bs[0] == b && bs[1..] == BlocksOf(codec, groups[1..], index + 1, row + b.rows).value;
      ConcatAppend(groups[0], Flatten(groups[1..]));
    }
  }

  /** Fewer row groups have a shorter text. */
  lemma {:induction false} PrefixShorter(o: BlockOptions, groups: seq<seq<Line>>, m: nat)
    requires GoodGroups(o, groups) && m <= |groups|
    ensures GoodGroups(o, groups[..m])
    ensures |Concat(Flatten(groups[..m]))| <= |Concat(Flatten(groups))|
    ensures m < |groups| ==> |Concat(Flatten(groups[..m]))| < |Concat(Flatten(groups))|
  {
    hide Concat, Flatten;
    assert groups == groups[..m] + groups[m..];
    FlattenAppend(groups[..m], groups[m..]);
    ConcatAppend(Flatten(groups[..m]), Flatten(groups[m..]));
    if m < |groups| {
      assert GoodGroup(o, groups[m]);
      FlattenFirst(groups[m..]);
      ConcatAppend(groups[m], Flatten(groups[m..][1..]));
      GroupNotEmpty(o, groups[m]);
    }
  }

  lemma {:induction false} GroupNotEmpty(o: BlockOptions, group: seq<Line>)
    requires GoodGroup(o, group)
    ensures Concat(group) != []
  {
    assert IsNormal(group[0]);
  }

  /**
    Replay after any append, whatever corrupt tail or footer stands behind the trustworthy blocks of the old buffer: the
    old replay followed by the row groups in front of the first frame above the size limit, or an error when the raw
    sizes overflow. A buffer without a valid header is started afresh.
  */
  lemma {:induction false} AppendReplays(crc: Checksum, codec: RowCodec, o: BlockOptions, existing: seq<byte>,
                                         raws: seq<Line>)
    requires |existing| < U64_LIMIT && ValidOptions(o) && o.maxRows < U64_LIMIT && o.maxBytes < U64_LIMIT
    requires Recover(crc, existing).Some? && Append(crc, codec, o, existing, raws, true).Some?
    requires HeaderOk(existing) ==> Replay(crc, codec, existing).Some?
    requires var before := BlocksIn(crc, existing);
             Split(o, raws).Some? ==> Lossless(codec, ReadableGroups(codec, Split(o, raws).value, |before|, TotalRows(before)))
    ensures AddedBlocks(codec, o, BlocksIn(crc, existing), raws).Some?
    ensures var before := BlocksIn(crc, existing);
            var kept := KeptBlocks(before, AddedBlocks(codec, o, before, raws).value);
            var groups := ReadableGroups(codec, Split(o, raws).value, |before|, TotalRows(before));
            Replay(crc, codec, Append(crc, codec, o, existing, raws, true).value) ==
            if TotalRaw(kept) >= U64_LIMIT then None
            else Some(OldText(crc, codec, existing) + Concat(Flatten(groups)))
  {
    var before := BlocksIn(crc, existing);
    AppendRecovers(crc, codec, o, existing, raws);
    OldBlocks(crc, codec, existing);
    hide HeaderOk, Recover, BlocksIn, Append, Split, BlocksOf, Texts, Lossless, StreamBytes, TotalRaw, TotalRows;
    hide Index, Recovered, Chain;
    hide DecodeStream, Readable, OldText;
    var (result, groups) := (Append(crc, codec, o, existing, raws, true).value, Split(o, raws).value);
    var added := AddedBlocks(codec, o, before, raws).value;
    var m := Readable(added);
    if TotalRaw(KeptBlocks(before, added)) < U64_LIMIT {
      ReplayIsTexts(crc, codec, result);
      SplitGood(o, raws);
      PrefixShorter(o, groups, m);
      BlocksOfPrefix(codec, groups, |before|, TotalRows(before), m);
      GroupsText(codec, o, groups[..m], |before|, TotalRows(before));
      TextsAppend(codec, before, added[..m]);
    }
  }

  lemma {:induction false} OldBlocks(crc: Checksum, codec: RowCodec, existing: seq<byte>)
    requires |existing| < U64_LIMIT && Recover(crc, existing).Some? && (HeaderOk(existing) ==> Replay(crc, codec, existing).Some?)
    ensures Texts(codec, BlocksIn(crc, existing)) == Some(OldText(crc, codec, existing))
  {
    if HeaderOk(existing) {
      ReplayIsTexts(crc, codec, existing);
    }
  }

  /**
    Replay after append is replay before followed by the contents of the new lines, each with one line feed, if and only
    if every new frame is within the readers' size limit, which the writer does not check, and the raw sizes fit in 64 bits.
  */
  lemma {:induction false} AppendThenReplay(crc: Checksum, codec: RowCodec, o: BlockOptions, existing: seq<byte>,
                                            raws: seq<Line>)
    returns (contents: seq<Line>)
    requires |existing| < U64_LIMIT && ValidOptions(o) && o.maxRows < U64_LIMIT && o.maxBytes < U64_LIMIT
    requires Recover(crc, existing).Some? && Append(crc, codec, o, existing, raws, true).Some?
    requires HeaderOk(existing) ==> Replay(crc, codec, existing).Some?
    requires var before := BlocksIn(crc, existing);
             Split(o, raws).Some? ==> Lossless(codec, ReadableGroups(codec, Split(o, raws).value, |before|, TotalRows(before)))
    ensures Contents(raws, contents) && NormalRows(raws) == Some(Terminated(contents))
    ensures AddedBlocks(codec, o, BlocksIn(crc, existing), raws).Some?
    ensures var before := BlocksIn(crc, existing);
            var rows := Concat(Terminated(contents));
            Replay(crc, codec, Append(crc, codec, o, existing, raws, true).value) ==
              Some(OldText(crc, codec, existing) + rows)
            <==> FramesFit(AddedBlocks(codec, o, before, raws).value) && TotalRaw(before) + |rows| < U64_LIMIT
  {
    AppendReplays(crc, codec, o, existing, raws);
    var before := BlocksIn(crc, existing);
    NewText(codec, o, before, raws);
    contents := ContentsOf(raws);
    var text := Concat(Flatten(ReadableGroups(codec, Split(o, raws).value, |before|, TotalRows(before))));
    SameBehind(OldText(crc, codec, existing), text, Concat(NormalRows(raws).value));
    hide HeaderOk, Recover, BlocksIn, Append, Split, Lossless, TotalRaw, TotalRows, Replay, NormalRows, Concat;
    hide Flatten, FramesFit, Contents;
    hide AddedBlocks, ReadableGroups, KeptBlocks, OldText;
  }

  /** The text that a reader gets to is all of the new text exactly when every new frame is within the size limit. */
  lemma {:induction false} NewText(codec: RowCodec, o: BlockOptions, before: seq<Block>, raws: seq<Line>)
    requires ValidOptions(o) && o.maxBytes < U64_LIMIT && AddedBlocks(codec, o, before, raws).Some?
    ensures NormalRows(raws).Some? && Split(o, raws).Some?
    ensures var added := AddedBlocks(codec, o, before, raws).value;
            var text := Concat(Flatten(ReadableGroups(codec, Split(o, raws).value, |before|, TotalRows(before))));
            var rows := Concat(NormalRows(raws).value);
            && (FramesFit(added) ==> text == rows && TotalRaw(KeptBlocks(before, added)) == TotalRaw(before) + |rows|)
            && (!FramesFit(added) ==> |text| < |rows|)
  {
    AddedGroups(codec, o, before, raws);
    hide Split, BlocksOf, TotalRaw, TotalRows, NormalRows, Concat, Flatten, Readable, FramesFit, AddedBlocks;
    hide ReadableGroups, GoodGroup;
    var (added, groups) := (AddedBlocks(codec, o, before, raws).value, Split(o, raws).value);
    var m := Readable(added);
    SplitGood(o, raws);
    TextOfBlocks(codec, o, groups, |before|, TotalRows(before));
    ReadableFits(added);
    PrefixShorter(o, groups, m);
    if m == |added| {
      assert added[..m] == added && groups[..m] == groups;
      RowsAppend(before, added);
    }
  }

  // ----- sealed streams -----

  /** A frame above the size limit ends the pass over a stream with an error. */
  lemma {:induction false} OversizedEndsPass(crc: Checksum, data: seq<byte>, bs: seq<Block>, tail: seq<byte>)
    requires data == StreamBytes(crc, bs) + tail && |data| < U64_LIMIT
    requires Readable(bs) < |bs| && Chain(bs[..Readable(bs)], 0, 0)
    ensures ScanFrom(crc, data, []).1 == StepBad
  {
    hide HeaderOk, ReadStep, StreamBytes, BlocksBytes, BlockFrame, BlockPayload, Chain, TotalRows, Readable, ScanFrom;
    hide At, Position;
    var m := Readable(bs);
    var (kept, lost) := (bs[..m], bs[m..]);
    ReadableFits(bs);
    assert bs == kept + lost;
    KeptAndLost(crc, data, kept, lost, tail);
    StepOversized(crc, data, kept, lost[0]);
    BadEnds(crc, data, kept);
    StartOfScan(crc);
    ScanFromFinds(crc, data, [], kept);
    assert [] + kept == kept;
  }

  lemma {:induction false} KeptAndLost(crc: Checksum, data: seq<byte>, kept: seq<Block>, lost: seq<Block>,
                                       tail: seq<byte>)
    requires data == StreamBytes(crc, kept + lost) + tail && lost != []
    ensures At(data, STREAM_HEADER_LEN, BlocksBytes(crc, kept)) && At(data, Position(crc, kept), BlockFrame(crc, lost[0]))
  {
    StreamSplit(crc, kept, lost);
    hide HeaderOk, StreamBytes, BlocksBytes, BlockFrame, Position, At;
    var rest := BlocksBytes(crc, lost) + tail;
    assert data == StreamBytes(crc, kept) + rest;
    StreamPlus(crc, data, kept, rest);
    AtConcat(data, Position(crc, kept), BlocksBytes(crc, lost), tail);
    AtConcat(data, Position(crc, kept), BlockFrame(crc, lost[0]), BlocksBytes(crc, lost[1..]));
  }

  lemma {:induction false} BadEnds(crc: Checksum, data: seq<byte>, found: seq<Block>)
    requires ReadStep(crc, data, found) == StepBad
    ensures ScanFrom(crc, data, found) == ([], StepBad)
  {
    hide ReadStep;
  }

  lemma {:induction false} EncodedBlocks(crc: Checksum, codec: RowCodec, o: BlockOptions, raws: seq<Line>)
    requires ValidOptions(o) && EncodeStream(crc, codec, o, raws, true).Some?
    ensures AddedBlocks(codec, o, [], raws).Some?
    ensures var bs := AddedBlocks(codec, o, [], raws).value;
            && EncodeStream(crc, codec, o, raws, true).value == SealedBytes(crc, bs)
            && |bs| <= MAX_STREAM_BLOCKS && TotalRows(bs) < U64_LIMIT
    ensures TotalRows([]) == 0 && Chain([], 0, 0)
  {
    hide EncodeStream, Split, BlocksOf, SealedBytes, BlocksBytes;
    EncodeStreamIs(crc, codec, o, raws, true);
  }

  /**
    Encoding and decoding a sealed stream gives back the contents of the non-blank lines of the input, in order and each
    with one line feed, if every frame is within the readers' size limit; otherwise decoding fails.
  */
  lemma {:induction false} EncodeThenDecode(crc: Checksum, codec: RowCodec, o: BlockOptions, raws: seq<Line>)
    returns (contents: seq<Line>)
    requires ValidOptions(o) && o.maxRows < U64_LIMIT && o.maxBytes < U64_LIMIT
    requires EncodeStream(crc, codec, o, raws, true).Some? && |EncodeStream(crc, codec, o, raws, true).value| < U64_LIMIT
    requires Split(o, raws).Some? ==> Lossless(codec, ReadableGroups(codec, Split(o, raws).value, 0, 0))
    ensures Contents(raws, contents) && NormalRows(raws) == Some(Terminated(contents))
    ensures AddedBlocks(codec, o, [], raws).Some?
    ensures DecodeStream(crc, codec, EncodeStream(crc, codec, o, raws, true).value, true) ==
            if FramesFit(AddedBlocks(codec, o, [], raws).value) then Some(Concat(Terminated(contents))) else None
  {
    EncodedBlocks(crc, codec, o, raws);
    AddedGroups(codec, o, [], raws);
    hide EncodeStream, DecodeFrom, HeaderOk, Split, BlocksOf, NormalRows, Lossless, Concat, Flatten, Texts;
    hide StreamBytes, BlocksBytes, Chain;
    hide Readable, TotalRows, FramesFit, AddedBlocks, ReadableGroups, GoodGroup, Contents;
    SplitGood(o, raws);
    contents := ContentsOf(raws);
    var groups := Split(o, raws).value;
    var bs := AddedBlocks(codec, o, [], raws).value;
    var data := SealedBytes(crc, bs);
    ReadableFits(bs);
    KeptChain(codec, o, [], raws);
    assert KeptBlocks([], bs) == bs[..Readable(bs)];
    if Readable(bs) == |bs| {
      assert bs[..|bs|] == bs && groups[..|bs|] == groups;
      GroupsText(codec, o, groups, 0, 0);
      SealedDecodeIff(crc, codec, data, Concat(Flatten(groups)));
    } else {
      OversizedEndsPass(crc, data, bs, IndexFooter(Index(crc, bs, STREAM_HEADER_LEN)));
      DecodeIsScan(crc, codec, data, true, []);
    }
  }
}
