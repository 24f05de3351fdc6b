/** The reader object and the loops around it, proved against the functions of module Reader. */
module BlockReader {
  import opened Wrappers
  import opened Bytes
  import opened BlockStream
  import opened Writer
  import opened Recovery
  import opened Reader
  import opened AppendLog

  datatype DecodedBlock = DecodedBlock(metadata: BlockMetadata, firstRow: nat, jsonl: seq<byte>)

  datatype NextBlock = Got(block: DecodedBlock) | NoMore | Invalid

  /** What one call finds behind the blocks read so far. */
  function Expected(crc: Checksum, codec: RowCodec, data: seq<byte>, sealed: bool, found: seq<Block>): NextBlock {
    match ReadStep(crc, data, found)
    case StepBlock(b) =>
      (match BlockText(codec, b)
       case None => Invalid
       case Some(text) =>
         if TotalRows(found) + b.rows >= U64_LIMIT then Invalid
         else Got(DecodedBlock(MetadataOf(crc, b, Position(crc, found)), b.firstRow, text)))
    case StepSealed => NoMore
    case StepEnd => if sealed then Invalid else NoMore
    case StepBad => Invalid
  }

  class JsonlBlockReader {
    const crc: Checksum
    const codec: RowCodec
    const data: seq<byte>
    const requireFooter: bool
    var pos: nat
    var nextBlockIndex: nat
    var nextRowIndex: nat
    var nextOffset: nat
    var metadata: seq<BlockMetadata>
    var finished: bool
    ghost var found: seq<Block>

    ghost predicate Valid()
      reads this
    {
      && |data| < U64_LIMIT
      && nextBlockIndex == |found|
      && nextRowIndex == TotalRows(found)
      && nextOffset == Position(crc, found)
      && metadata == Index(crc, found, STREAM_HEADER_LEN)
      && (!finished ==> pos == nextOffset)
      && (finished ==> ReadStep(crc, data, found).StepSealed? || (ReadStep(crc, data, found).StepEnd? && !requireFooter))
    }

    /** Behind a header that has been checked. */
    constructor (crc: Checksum, codec: RowCodec, data: seq<byte>, requireFooter: bool)
      requires HeaderOk(data) && |data| < U64_LIMIT
      ensures Valid() && found == [] && !finished
      ensures this.crc == crc && this.codec == codec && this.data == data && this.requireFooter == requireFooter
    {
      this.crc, this.codec, this.data, this.requireFooter := crc, codec, data, requireFooter;
      pos, nextBlockIndex, nextRowIndex, nextOffset := STREAM_HEADER_LEN, 0, 0, STREAM_HEADER_LEN;
      metadata, finished, found := [], false, [];
    }

    /** `next_block` */
    method Next() returns (r: NextBlock)
      requires Valid()
      modifies this
      ensures Valid()
      ensures r == if old(finished) then NoMore else Expected(crc, codec, data, requireFooter, old(found))
      ensures r.Got? ==> !finished && ReadStep(crc, data, old(found)).StepBlock?
                         && found == old(found) + [ReadStep(crc, data, old(found)).block]
      ensures !r.Got? ==> found == old(found)
      ensures r.NoMore? <==> finished
    {
      hide FrameBlock, ReadIndex, BlockText, Index, BlocksBytes, MetadataOf, BlockFrame, TotalRows, Position;
      if finished {
        return NoMore;
      }
      match ReadRecord(data, pos)
      case EndOfInput =>
        if requireFooter {
          return Invalid;
        }
        finished := true;
        return NoMore;
      case Malformed =>
        return Invalid;
      case IndexRecord(entries) =>
        if entries != metadata || pos + 12 + INDEX_ENTRY_LEN * |entries| != |data| {
          return Invalid;
        }
        finished := true;
        return NoMore;
      case FrameRecord(frame) =>
        var parsed := FrameBlock(crc, frame);
        if parsed.None? || parsed.value.index != nextBlockIndex || parsed.value.firstRow != nextRowIndex {
          return Invalid;
        }
        var b := parsed.value;
        var text := BlockText(codec, b);
        if text.None? || nextRowIndex + b.rows >= U64_LIMIT {
          return Invalid;
        }
        StepBlockIff(crc, data, found, b);
        FoundGrows(crc, found, b);
        var block := MetadataOf(crc, b, nextOffset);
        nextBlockIndex := nextBlockIndex + 1;
        nextRowIndex := nextRowIndex + b.rows;
        nextOffset := nextOffset + |frame|;
        metadata := metadata + [block];
        FrameLength(crc, data, pos, frame, b);
        pos := pos + |frame|;
        found := found + [b];
        return Got(DecodedBlock(block, b.firstRow, text.value));
    }
  }

  lemma {:induction false} FrameLength(crc: Checksum, data: seq<byte>, pos: nat, frame: seq<byte>, b: Block)
    requires ReadRecord(data, pos) == FrameRecord(frame) && FrameBlock(crc, frame) == Some(b)
    ensures |frame| == |BlockFrame(crc, b)|
  {
    hide FrameBlock, BlockFrame;
    FrameBlockIff(crc, frame, b);
  }

  /** The loop of `decode_jsonl_stream` and of replay: blocks are decoded and written one after the other. */
  method DecodeJsonlStream(crc: Checksum, codec: RowCodec, data: seq<byte>,
                           sealed: bool) returns (text: Option<seq<byte>>)
    requires |data| < U64_LIMIT
    ensures text == DecodeStream(crc, codec, data, sealed)
  {
    hide HeaderOk, BlockText, ReadStep, Position;
    if !HeaderOk(data) {
      return None;
    }
    var reader := new JsonlBlockReader(crc, codec, data, sealed);
    var output: seq<byte> := [];
    ghost var goal := DecodeFrom(crc, codec, data, sealed, []);
    PrefixedNothing(goal);
    while !reader.finished
      invariant reader.Valid()
      invariant reader.crc == crc && reader.codec == codec && reader.data == data && reader.requireFooter == sealed
      invariant goal == Prefixed(output, DecodeFrom(crc, codec, data, sealed, reader.found))
      decreases |data| - Position(crc, reader.found), if reader.finished then 0 else 1
    {
      ghost var before := reader.found;
      var next := reader.Next();
      match next {
        case Invalid => return None;
        case NoMore =>
        case Got(block) =>
          ghost var b := ReadStep(crc, data, before).block;
          StepBlockIff(crc, data, before, b);
          FoundGrows(crc, before, b);
          PrefixedTwice(output, block.jsonl, DecodeFrom(crc, codec, data, sealed, before + [b]));
          output := output + block.jsonl;
      }
    }
    PrefixedEnd(output);
    return Some(output);
  }

  /** `replay_jsonl_append_stream` */
  method ReplayJsonlAppendStream(crc: Checksum, codec: RowCodec, data: seq<byte>) returns (text: Option<seq<byte>>)
    requires |data| < U64_LIMIT
    ensures text == Replay(crc, codec, data)
  {
    hide Recover, DecodeStream;
    var recovery := RecoverAppendStream(crc, data);
    if recovery.None? {
      return None;
    }
    text := DecodeJsonlStream(crc, codec, data[..recovery.value.validLen], false);
  }

  /** `inspect_jsonl_stream`: the same pass without decoding; the index is compared after the loop. */
  method InspectJsonlStream(crc: Checksum, data: seq<byte>) returns (r: Option<StreamInspect>)
    requires |data| < U64_LIMIT
    ensures r == Inspect(crc, data)
  {
    hide ScanFrom, Index, HeaderOk;
    if !HeaderOk(data) {
      return None;
    }
    var blocks, footer := InspectRecords(crc, data);
    if blocks.None? {
      return None;
    }
    var totalRows := CheckedTotal(blocks.value, (m: BlockMetadata) => m.rows, SumRows);
    var totalRaw := CheckedTotal(blocks.value, (m: BlockMetadata) => m.rawSize, SumRaw);
    var totalEncoded := CheckedTotal(blocks.value, (m: BlockMetadata) => m.encodedSize, SumEncoded);
    if totalRows.None? || totalRaw.None? || totalEncoded.None? {
      return None;
    }
    if footer.Some? && footer.value != blocks.value {
      return None;
    }
    return Some(StreamInspect(blocks.value, footer, totalRows.value, totalRaw.value, totalEncoded.value));
  }

  /** The inspection loop: the blocks up to an index or the end; None is a malformed record. */
  method InspectRecords(crc: Checksum, data: seq<byte>) returns (blocks: Option<seq<BlockMetadata>>,
                        footer: Option<seq<BlockMetadata>>)
    requires HeaderOk(data) && |data| < U64_LIMIT
    ensures var (bs, end) := ScanFrom(crc, data, []);
      && (end.StepSealed? ==> blocks == Some(Index(crc, bs, STREAM_HEADER_LEN)) && footer == blocks)
      && (end.StepEnd? ==> blocks == Some(Index(crc, bs, STREAM_HEADER_LEN)) && footer == None)
      && (end.StepBad? ==> blocks.None? || (blocks == Some(Index(crc, bs, STREAM_HEADER_LEN)) && footer.Some? && footer != blocks))
  {
    assert Position(crc, []) == STREAM_HEADER_LEN && TotalRows([]) == 0 && Index(crc, [], STREAM_HEADER_LEN) == [];
    hide FrameBlock, ReadIndex, Index, BlocksBytes, MetadataOf, BlockFrame, TotalRows, Position, HeaderOk, ReadRecord;
    hide ReadStep, ScanFrom;
    var metadata: seq<BlockMetadata> := [];
    var expectedIndex: nat, expectedRow: nat, nextOffset: nat := 0, 0, STREAM_HEADER_LEN;
    ghost var found: seq<Block> := [];
    ghost var goal := ScanFrom(crc, data, []);
    assert [] + goal.0 == goal.0;
    while true
      invariant metadata == Index(crc, found, STREAM_HEADER_LEN)
      invariant expectedIndex == |found| && expectedRow == TotalRows(found) && nextOffset == Position(crc, found)
      invariant goal == (found + ScanFrom(crc, data, found).0, ScanFrom(crc, data, found).1)
      decreases |data| - Position(crc, found)
    {
      RecordStep(crc, data, found);
      ScanEnds(crc, data, found);
      match ReadRecord(data, nextOffset)
      case EndOfInput => return Some(metadata), None;
      case Malformed => return None, None;
      case IndexRecord(entries) =>
        if nextOffset + 12 + INDEX_ENTRY_LEN * |entries| != |data| {
          return None, None;
        }
        return Some(metadata), Some(entries);
      case FrameRecord(frame) =>
        var parsed := FrameBlock(crc, frame);
        if parsed.None? || parsed.value.index != expectedIndex || parsed.value.firstRow != expectedRow {
          return None, None;
        }
        var b := parsed.value;
        if expectedRow + b.rows >= U64_LIMIT {
          return None, None;
        }
        FoundGrows(crc, found, b);
        FrameLength(crc, data, nextOffset, frame, b);
        BlockInside(crc, data, found, b);
        ScanGoesOn(crc, data, found, b);
        metadata := metadata + [MetadataOf(crc, b, nextOffset)];
        expectedIndex := expectedIndex + 1;
        expectedRow := expectedRow + b.rows;
        nextOffset := nextOffset + |frame|;
        found := found + [b];
    }
  }

  /** The step that a record amounts to. */
  lemma {:induction false} RecordStep(crc: Checksum, data: seq<byte>, found: seq<Block>)
    ensures var step := ReadStep(crc, data, found);
      match ReadRecord(data, Position(crc, found))
      case EndOfInput => step == StepEnd
      case Malformed => step == StepBad
      case IndexRecord(entries) =>
        step == if entries == Index(crc, found, STREAM_HEADER_LEN)
                   && Position(crc, found) + 12 + INDEX_ENTRY_LEN * |entries| == |data| then StepSealed else StepBad
      case FrameRecord(frame) =>
        var parsed := FrameBlock(crc, frame);
        step == if parsed.None? || parsed.value.index != |found| || parsed.value.firstRow != TotalRows(found)
                then StepBad else StepBlock(parsed.value)
  {
    hide FrameBlock, Index, TotalRows, Position, ReadRecord;
  }

  lemma {:induction false} ScanEnds(crc: Checksum, data: seq<byte>, found: seq<Block>)
    ensures var step := ReadStep(crc, data, found);
      && (!step.StepBlock? ==> ScanFrom(crc, data, found) == ([], step))
      && (step.StepBlock? && TotalRows(found) + step.block.rows >= U64_LIMIT ==> ScanFrom(crc, data, found) == ([], StepBad))
    ensures found + [] == found
  {
    hide ReadStep, TotalRows, Position;
  }

  lemma {:induction false} ScanGoesOn(crc: Checksum, data: seq<byte>, found: seq<Block>, b: Block)
    requires ReadStep(crc, data, found) == StepBlock(b) && TotalRows(found) + b.rows < U64_LIMIT
    ensures var (rest, end) := ScanFrom(crc, data, found + [b]);
            ScanFrom(crc, data, found) == ([b] + rest, end) && found + ([b] + rest) == (found + [b]) + rest
  {
    hide ReadStep, TotalRows, Position, BlockFrame;
  }

  lemma {:induction false} BlockInside(crc: Checksum, data: seq<byte>, found: seq<Block>, b: Block)
    requires ReadStep(crc, data, found) == StepBlock(b)
    ensures Position(crc, found) < Position(crc, found + [b]) <= |data|
  {
    hide ReadStep, Position, BlockFrame;
    StepBlockIff(crc, data, found, b);
    FoundGrows(crc, found, b);
  }
}
