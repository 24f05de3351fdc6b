/**
  Reading CMP2 streams (crates/compact-core/src/streaming/reader.rs): one record at a time, every block
  checked against the ones before it, and the footer index against all of them.
*/
module Reader {
  import opened Wrappers
  import opened Bytes
  import opened Limits
  import opened Framing
  import opened BlockStream
  import opened Lines
  import opened Writer
  import opened Recovery

  datatype Record =
    | FrameRecord(frame: seq<byte>)
    | IndexRecord(entries: seq<BlockMetadata>)
    | EndOfInput
    | Malformed

  /** `read_next_record_from` */
  function ReadRecord(data: seq<byte>, pos: nat): Record {
    if pos >= |data| then EndOfInput
    else if pos + 4 > |data| then Malformed
    else if data[pos..pos + 4] == IndexMagic() then
      (match ReadIndex(data, pos + 4) case None => Malformed case Some(entries) => IndexRecord(entries))
    else if data[pos..pos + 4] != MagicV1() then Malformed
    else if pos + FRAME_HEADER_LEN > |data| then Malformed
    else
      var payloadLen := Field(data, pos + 6, 8);
      if payloadLen > MAX_ENCODED_BLOCK_BYTES || pos + FRAME_HEADER_LEN + payloadLen > |data| then Malformed
      else FrameRecord(data[pos..pos + FRAME_HEADER_LEN + payloadLen])
  }

  /** Where the next record stands once the blocks `found` have been read. */
  function Position(crc: Checksum, found: seq<Block>): nat {
    STREAM_HEADER_LEN + |BlocksBytes(crc, found)|
  }

  lemma {:induction false} StartOfScan(crc: Checksum)
    ensures Position(crc, []) == STREAM_HEADER_LEN && TotalRows([]) == 0 && Index(crc, [], STREAM_HEADER_LEN) == []
  {
  }

  datatype Step =
    | StepBlock(block: Block)   // a valid frame that continues the numbering
    | StepSealed                // an index equal to the blocks read, and nothing behind it
    | StepEnd                   // the input ends without an index
    | StepBad

  /** One record, checked against the blocks read so far; all four scanning loops make these checks. */
  function ReadStep(crc: Checksum, data: seq<byte>, found: seq<Block>): Step {
    match ReadRecord(data, Position(crc, found))
    case FrameRecord(frame) =>
      (match FrameBlock(crc, frame)
       case None => StepBad
       case Some(b) => if b.index != |found| || b.firstRow != TotalRows(found) then StepBad else StepBlock(b))
    case IndexRecord(entries) =>
      if entries != Index(crc, found, STREAM_HEADER_LEN) then StepBad
      else if Position(crc, found) + 12 + INDEX_ENTRY_LEN * |entries| != |data| then StepBad
      else StepSealed
    case EndOfInput => StepEnd
    case Malformed => StepBad
  }

  lemma MagicsDiffer()
    ensures IndexMagic() != MagicV1()
  {
    assert IndexMagic()[0] != MagicV1()[0];
  }

  /** The stream reader and the recovery scanner accept the same frames. */
  lemma {:induction false} RecordIsNextFrame(crc: Checksum, data: seq<byte>, pos: nat)
    ensures var record := ReadRecord(data, pos);
            NextFrame(crc, data, pos, 0) == if record.FrameRecord? then FrameBlock(crc, record.frame) else None
  {
    MagicsDiffer();
    hide FrameBlock, IndexMagic, MagicV1, ReadIndex, Field;
  }

  /** A block is read exactly when its frame stands at the position and it has the next numbers. */
  lemma {:induction false} StepBlockIff(crc: Checksum, data: seq<byte>, found: seq<Block>, b: Block)
    ensures ReadStep(crc, data, found) == StepBlock(b) <==>
            && At(data, Position(crc, found), BlockFrame(crc, b)) && |BlockPayload(b)| <= MAX_ENCODED_BLOCK_BYTES
            && b.index == |found| && b.firstRow == TotalRows(found)
  {
    hide Position, TotalRows, Index, FrameBlock, BlockPayload, BlockFrame, NextFrame, ReadRecord, At;
    var pos := Position(crc, found);
    RecordIsNextFrame(crc, data, pos);
    assert ReadStep(crc, data, found) == StepBlock(b) <==>
      NextFrame(crc, data, pos, 0) == Some(b) && b.index == |found| && b.firstRow == TotalRows(found);
    NextFrameIff(crc, data, pos, 0, b);
  }

  /** A frame above the size limit is an error of the reader. */
  lemma {:induction false} StepOversized(crc: Checksum, data: seq<byte>, found: seq<Block>, b: Block)
    requires |data| < U64_LIMIT
    requires At(data, Position(crc, found), BlockFrame(crc, b)) && |BlockPayload(b)| > MAX_ENCODED_BLOCK_BYTES
    ensures ReadStep(crc, data, found) == StepBad
  {
    FrameAt(crc, data, Position(crc, found), CODEC_COLUMN_BLOCK, BlockPayload(b));
    AtInside(data, Position(crc, found), MagicV1());
    MagicsDiffer();
    hide EncodeFrame, BlockPayload, FrameBlock, Position, IndexMagic, MagicV1, At, Index;
  }

  /** The reader ends a sealed stream exactly at the index of its own blocks. */
  lemma {:induction false} StepSealedIff(crc: Checksum, data: seq<byte>, found: seq<Block>)
    requires |data| < U64_LIMIT
    ensures ReadStep(crc, data, found) == StepSealed <==>
            var entries := Index(crc, found, STREAM_HEADER_LEN);
            && |found| <= MAX_STREAM_BLOCKS && Numbered(entries, 0)
            && At(data, Position(crc, found), IndexFooter(entries))
            && Position(crc, found) + |IndexFooter(entries)| == |data|
  {
    var entries := Index(crc, found, STREAM_HEADER_LEN);
    ReadIndexIff(data, Position(crc, found), entries);
    hide Position, Index, FrameBlock, IndexFooter, ReadIndex, IndexMagic;
  }

  lemma {:induction false} FoundGrows(crc: Checksum, found: seq<Block>, b: Block)
    ensures Position(crc, found + [b]) == Position(crc, found) + |BlockFrame(crc, b)|
    ensures TotalRows(found + [b]) == TotalRows(found) + b.rows
    ensures Index(crc, found + [b], STREAM_HEADER_LEN) ==
            Index(crc, found, STREAM_HEADER_LEN) + [MetadataOf(crc, b, Position(crc, found))]
  {
    hide BlockFrame, MetadataOf;
    BlocksSnoc(crc, found, b, STREAM_HEADER_LEN);
    BlocksAppend(crc, found, [b]);
    assert TotalRows([b]) == b.rows + TotalRows([]);
  }

  // ----- decoding -----

  /** Decode one block and compare row count and raw size with its header. */
  function BlockText(codec: RowCodec, b: Block): Option<seq<byte>> {
    match codec.decode(b.column)
    case None => None
    case Some(text) => if |RowsOf(text)| != b.rows || |text| != b.rawSize then None else Some(text)
  }

  function Texts(codec: RowCodec, bs: seq<Block>): Option<seq<byte>> {
    if bs == [] then Some([])
    else
      match (BlockText(codec, bs[0]), Texts(codec, bs[1..]))
      case (Some(text), Some(rest)) => Some(text + rest)
      case (_, _) => None
  }

  /** The rest of a stream behind the blocks `found`, decoded block by block; None is an error. */
  function DecodeFrom(crc: Checksum, codec: RowCodec, data: seq<byte>, sealed: bool,
                      found: seq<Block>): Option<seq<byte>>
    decreases |data| - Position(crc, found)
  {
    match ReadStep(crc, data, found)
    case StepBlock(b) =>
      (match BlockText(codec, b)
       case None => None
       case Some(text) =>
         if TotalRows(found) + b.rows >= U64_LIMIT then None
         else
           StepBlockIff(crc, data, found, b); FoundGrows(crc, found, b);
           match DecodeFrom(crc, codec, data, sealed, found + [b])
           case None => None
           case Some(rest) => Some(text + rest))
    case StepSealed => Some([])
    case StepEnd => if sealed then None else Some([])
    case StepBad => None
  }

  /** `decode_jsonl_stream` for a sealed stream; the unsealed mode is the one replay uses. */
  function DecodeStream(crc: Checksum, codec: RowCodec, data: seq<byte>, sealed: bool): Option<seq<byte>> {
    if !HeaderOk(data) then None else DecodeFrom(crc, codec, data, sealed, [])
  }

  /** The blocks behind `found`, without decoding any: what a pass over the envelopes sees. */
  function ScanFrom(crc: Checksum, data: seq<byte>, found: seq<Block>): (r: (seq<Block>, Step))
    ensures !r.1.StepBlock?
    decreases |data| - Position(crc, found)
  {
    match ReadStep(crc, data, found)
    case StepBlock(b) =>
      if TotalRows(found) + b.rows >= U64_LIMIT then ([], StepBad)
      else
        StepBlockIff(crc, data, found, b); FoundGrows(crc, found, b);
        var (rest, end) := ScanFrom(crc, data, found + [b]);
        ([b] + rest, end)
    case step => ([], step)
  }

  /** Decoding is scanning the envelopes and then decoding the blocks. */
  lemma {:induction false} DecodeIsScan(crc: Checksum, codec: RowCodec, data: seq<byte>, sealed: bool,
                                        found: seq<Block>)
    ensures var (blocks, end) := ScanFrom(crc, data, found);
            DecodeFrom(crc, codec, data, sealed, found) ==
            if end.StepSealed? || (end.StepEnd? && !sealed) then Texts(codec, blocks) else None
    decreases |data| - Position(crc, found)
  {
    hide ReadStep, BlockText, TotalRows, Position;
    var step := ReadStep(crc, data, found);
    if step.StepBlock? && TotalRows(found) + step.block.rows < U64_LIMIT {
      StepBlockIff(crc, data, found, step.block);
      FoundGrows(crc, found, step.block);
      DecodeIsScan(crc, codec, data, sealed, found + [step.block]);
      var (rest, _) := ScanFrom(crc, data, found + [step.block]);
      assert ([step.block] + rest)[1..] == rest;
    }
  }

  lemma {:induction false} StepInside(crc: Checksum, data: seq<byte>, found: seq<Block>)
    requires Position(crc, found) <= |data|
    ensures At(data, Position(crc, found), BlocksBytes(crc, [])) && Chain([], |found|, TotalRows(found))
    ensures var step := ReadStep(crc, data, found);
            step.StepBlock? ==> Position(crc, found) + |BlockFrame(crc, step.block)| <= |data|
  {
    hide ReadStep, BlockFrame;
    var step := ReadStep(crc, data, found);
    if step.StepBlock? {
      StepBlockIff(crc, data, found, step.block);
    }
  }

  lemma {:induction false} OneMore(crc: Checksum, data: seq<byte>, found: seq<Block>, b: Block, rest: seq<Block>)
    requires ReadStep(crc, data, found) == StepBlock(b)
    ensures At(data, Position(crc, found), BlocksBytes(crc, [b] + rest)) <==> At(data, Position(crc, found + [b]), BlocksBytes(crc, rest))
    ensures Chain([b] + rest, |found|, TotalRows(found)) <==>
            TotalRows(found) + b.rows < U64_LIMIT && Chain(rest, |found + [b]|, TotalRows(found + [b]))
  {
    hide ReadStep, BlockFrame, BlockPayload, Position, At;
    StepBlockIff(crc, data, found, b);
    FoundGrows(crc, found, b);
    assert ([b] + rest)[1..] == rest;
    AtConcat(data, Position(crc, found), BlockFrame(crc, b), BlocksBytes(crc, rest));
  }

  /** What the pass over the envelopes means: the bytes of these blocks, one after the other. */
  lemma {:induction false} ScanFromSound(crc: Checksum, data: seq<byte>, found: seq<Block>)
    requires Position(crc, found) <= |data|
    ensures var (blocks, end) := ScanFrom(crc, data, found);
            && At(data, Position(crc, found), BlocksBytes(crc, blocks))
            && Chain(blocks, |found|, TotalRows(found))
            && (end == StepBad || end == ReadStep(crc, data, found + blocks))
    decreases |data| - Position(crc, found)
  {
    hide ReadStep, BlockFrame, BlockPayload, Chain, BlocksBytes, Position, At, TotalRows;
    var step := ReadStep(crc, data, found);
    StepInside(crc, data, found);
    if step.StepBlock? && TotalRows(found) + step.block.rows < U64_LIMIT {
      var b := step.block;
      StepBlockIff(crc, data, found, b);
      FoundGrows(crc, found, b);
      ScanFromSound(crc, data, found + [b]);
      var (rest, _) := ScanFrom(crc, data, found + [b]);
      assert (found + [b]) + rest == found + ([b] + rest);
      OneMore(crc, data, found, b, rest);
    } else {
      assert found + [] == found;
    }
  }

  lemma {:induction false} ScanFromStep(crc: Checksum, data: seq<byte>, found: seq<Block>, b: Block)
    requires ReadStep(crc, data, found) == StepBlock(b) && TotalRows(found) + b.rows < U64_LIMIT
    ensures var (rest, end) := ScanFrom(crc, data, found + [b]);
            ScanFrom(crc, data, found) == ([b] + rest, end)
  {
    hide ReadStep, TotalRows;
  }

  /** Written blocks are read again, and the pass goes on behind them. */
  lemma {:induction false} ScanFromFinds(crc: Checksum, data: seq<byte>, found: seq<Block>, bs: seq<Block>)
    requires At(data, Position(crc, found), BlocksBytes(crc, bs)) && Chain(bs, |found|, TotalRows(found))
    ensures var (rest, end) := ScanFrom(crc, data, found + bs);
            ScanFrom(crc, data, found) == (bs + rest, end)
    decreases |bs|
  {
    hide ReadStep, BlockFrame, BlockPayload, ScanFrom, At, Position, TotalRows, Index;
    if bs == [] {
      assert found + bs == found;
      assert [] + ScanFrom(crc, data, found).0 == ScanFrom(crc, data, found).0;
    } else {
      var b := bs[0];
      AtConcat(data, Position(crc, found), BlockFrame(crc, b), BlocksBytes(crc, bs[1..]));
      StepBlockIff(crc, data, found, b);
      FoundGrows(crc, found, b);
      ScanFromStep(crc, data, found, b);
      ScanFromFinds(crc, data, found + [b], bs[1..]);
      assert (found + [b]) + bs[1..] == found + bs;
      var (rest, _) := ScanFrom(crc, data, found + bs);
      assert [b] + (bs[1..] + rest) == bs + rest;
    }
  }

  /** The text of every block: what its column decodes to, with the row count and the raw size that its header has. */
  ghost predicate Decodes(codec: RowCodec, bs: seq<Block>, parts: seq<seq<byte>>) {
    && |parts| == |bs|
    && forall k :: 0 <= k < |bs| ==>
         codec.decode(bs[k].column) == Some(parts[k]) && |RowsOf(parts[k])| == bs[k].rows && |parts[k]| == bs[k].rawSize
  }

  /** Blocks decode to a text exactly when it consists of their own texts, in order, and each has its header's counts. */
  lemma {:induction false} TextsIff(codec: RowCodec, bs: seq<Block>, text: seq<byte>)
    ensures Texts(codec, bs) == Some(text) <==> exists parts :: Decodes(codec, bs, parts) && text == Concat(parts)
    decreases |bs|
  {
    hide RowsOf;
    if bs == [] {
      assert Decodes(codec, bs, []);
    } else {
      if Texts(codec, bs) == Some(text) {
        var (first, rest) := (BlockText(codec, bs[0]).value, Texts(codec, bs[1..]).value);
        TextsIff(codec, bs[1..], rest);
        var parts :| Decodes(codec, bs[1..], parts) && rest == Concat(parts);
        DecodesCons(codec, bs, [first] + parts);
      }
      if parts: seq<seq<byte>> :| Decodes(codec, bs, parts) && text == Concat(parts) {
        DecodesCons(codec, bs, parts);
        TextsIff(codec, bs[1..], Concat(parts[1..]));
      }
    }
  }

  lemma {:induction false} DecodesCons(codec: RowCodec, bs: seq<Block>, parts: seq<seq<byte>>)
    requires bs != [] && parts != []
    ensures Decodes(codec, bs, parts) <==> BlockText(codec, bs[0]) == Some(parts[0]) && Decodes(codec, bs[1..], parts[1..])
    ensures Concat(parts) == parts[0] + Concat(parts[1..])
  {
    hide RowsOf;
    assert bs == [bs[0]] + bs[1..] && parts == [parts[0]] + parts[1..];
  }

  // ----- sealed streams -----

  /** The envelopes of a buffer are those of a sealed stream of `bs` exactly when it is that stream, byte for byte. */
  lemma {:induction false} SealedIff(crc: Checksum, data: seq<byte>, bs: seq<Block>)
    requires |data| < U64_LIMIT
    ensures HeaderOk(data) && ScanFrom(crc, data, []) == (bs, StepSealed) <==>
            data == SealedBytes(crc, bs) && Chain(bs, 0, 0) && |bs| <= MAX_STREAM_BLOCKS
  {
    if HeaderOk(data) && ScanFrom(crc, data, []) == (bs, StepSealed) {
      SealedOnlyIf(crc, data, bs);
    }
    if data == SealedBytes(crc, bs) && Chain(bs, 0, 0) && |bs| <= MAX_STREAM_BLOCKS {
      SealedScans(crc, bs);
    }
  }

  lemma {:induction false} StreamPlus(crc: Checksum, data: seq<byte>, bs: seq<Block>, tail: seq<byte>)
    ensures data == StreamBytes(crc, bs) + tail <==>
            && HeaderOk(data) && At(data, STREAM_HEADER_LEN, BlocksBytes(crc, bs))
            && At(data, Position(crc, bs), tail) && |data| == Position(crc, bs) + |tail|
  {
    hide HeaderOk, StreamHeader, BlocksBytes;
    HeaderOkIff(data);
    AtCovers(data, StreamBytes(crc, bs), tail);
    AtConcat(data, 0, StreamHeader(), BlocksBytes(crc, bs));
  }

  lemma {:induction false} SealedOnlyIf(crc: Checksum, data: seq<byte>, bs: seq<Block>)
    requires |data| < U64_LIMIT && HeaderOk(data) && ScanFrom(crc, data, []) == (bs, StepSealed)
    ensures data == SealedBytes(crc, bs) && Chain(bs, 0, 0) && |bs| <= MAX_STREAM_BLOCKS
  {
    assert Position(crc, []) == STREAM_HEADER_LEN && TotalRows([]) == 0 && |data| >= STREAM_HEADER_LEN;
    hide HeaderOk, ReadStep, ScanFrom, StreamBytes, Index, IndexFooter, BlocksBytes, Chain, Position;
    ScanFromSound(crc, data, []);
    assert [] + bs == bs;
    StepSealedIff(crc, data, bs);
    StreamPlus(crc, data, bs, IndexFooter(Index(crc, bs, STREAM_HEADER_LEN)));
  }

  lemma {:induction false} SealedScans(crc: Checksum, bs: seq<Block>)
    requires |SealedBytes(crc, bs)| < U64_LIMIT && Chain(bs, 0, 0) && |bs| <= MAX_STREAM_BLOCKS
    ensures HeaderOk(SealedBytes(crc, bs)) && ScanFrom(crc, SealedBytes(crc, bs), []) == (bs, StepSealed)
  {
    assert Position(crc, []) == STREAM_HEADER_LEN && TotalRows([]) == 0;
    var data := SealedBytes(crc, bs);
    hide HeaderOk, ReadStep, StreamBytes, Index, IndexFooter, BlocksBytes, Chain, Position;
    StreamPlus(crc, data, bs, IndexFooter(Index(crc, bs, STREAM_HEADER_LEN)));
    IndexNumbered(crc, bs, STREAM_HEADER_LEN, 0, 0);
    StepSealedIff(crc, data, bs);
    assert [] + bs == bs;
    ScanFromFinds(crc, data, [], bs);
    assert bs + [] == bs;
  }

  /** A sealed stream decodes exactly when it is a sealed stream of decodable blocks, and then to their texts. */
  lemma {:induction false} SealedDecodeIff(crc: Checksum, codec: RowCodec, data: seq<byte>, text: seq<byte>)
    requires |data| < U64_LIMIT
    ensures DecodeStream(crc, codec, data, true) == Some(text) <==>
            exists bs :: data == SealedBytes(crc, bs) && Chain(bs, 0, 0) && |bs| <= MAX_STREAM_BLOCKS
                         && Texts(codec, bs) == Some(text)
  {
    hide HeaderOk, ScanFrom, SealedBytes, Texts, DecodeFrom;
    DecodeIsScan(crc, codec, data, true, []);
    var (blocks, end) := ScanFrom(crc, data, []);
    SealedIff(crc, data, blocks);
    forall bs | data == SealedBytes(crc, bs) && Chain(bs, 0, 0) && |bs| <= MAX_STREAM_BLOCKS && Texts(codec, bs) == Some(text)
      ensures DecodeStream(crc, codec, data, true) == Some(text)
    {
      SealedIff(crc, data, bs);
    }
  }

  // ----- inspection -----

  datatype StreamInspect = StreamInspect(
    blocks: seq<BlockMetadata>,
    footer: Option<seq<BlockMetadata>>,
    totalRows: nat,
    totalRaw: nat,
    totalEncoded: nat)

  /** `inspect_jsonl_stream`: the envelopes only, sealed or not, with checked totals. */
  function Inspect(crc: Checksum, data: seq<byte>): Option<StreamInspect> {
    if !HeaderOk(data) then None
    else
      var (bs, end) := ScanFrom(crc, data, []);
      var ms := Index(crc, bs, STREAM_HEADER_LEN);
      if !end.StepSealed? && !end.StepEnd? then None
      else if SumRows(ms) >= U64_LIMIT || SumRaw(ms) >= U64_LIMIT || SumEncoded(ms) >= U64_LIMIT then None
      else Some(StreamInspect(ms, if end.StepSealed? then Some(ms) else None, SumRows(ms), SumRaw(ms), SumEncoded(ms)))
  }

  lemma {:induction false} InspectDecides(crc: Checksum, data: seq<byte>, bs: seq<Block>, end: Step)
    requires HeaderOk(data) && |data| < U64_LIMIT && ScanFrom(crc, data, []) == (bs, end) && (end.StepSealed? || end.StepEnd?)
    ensures Inspect(crc, data) ==
            if TotalRaw(bs) >= U64_LIMIT then None
            else
              var ms := Index(crc, bs, STREAM_HEADER_LEN);
              Some(StreamInspect(ms, if end.StepSealed? then Some(ms) else None, TotalRows(bs), TotalRaw(bs), |BlocksBytes(crc, bs)|))
  {
    assert Position(crc, []) == STREAM_HEADER_LEN && TotalRows([]) == 0 && |data| >= STREAM_HEADER_LEN;
    hide HeaderOk, ScanFrom, ReadStep, Index, BlocksBytes, Chain, Position, SumRows, SumRaw, SumEncoded, TotalRows;
    hide TotalRaw;
    ScanFromSound(crc, data, []);
    IndexSums(crc, bs, STREAM_HEADER_LEN, 0, 0);
  }

  /**
    The three scanners agree: on a sealed stream that the reader accepts, inspection and append recovery
    list the same blocks, inspection finds them in the footer, and recovery stops exactly at the footer.
    (Both also add up the raw sizes, and fail exactly when the sum does not fit in 64 bits.)
  */
  lemma {:induction false} ScannersAgree(crc: Checksum, codec: RowCodec, data: seq<byte>)
    requires |data| < U64_LIMIT && DecodeStream(crc, codec, data, true).Some?
    ensures exists bs :: data == SealedBytes(crc, bs) && Chain(bs, 0, 0) && |bs| <= MAX_STREAM_BLOCKS &&
              var ms := Index(crc, bs, STREAM_HEADER_LEN);
              if TotalRaw(bs) >= U64_LIMIT then Inspect(crc, data).None? && Recover(crc, data).None?
              else
                && Inspect(crc, data) == Some(StreamInspect(ms, Some(ms), TotalRows(bs), TotalRaw(bs), |BlocksBytes(crc, bs)|))
                && Recover(crc, data) == Some(AppendRecovery(|StreamBytes(crc, bs)|, ms, TotalRows(bs), TotalRaw(bs), |BlocksBytes(crc, bs)|, true))
  {
    var (bs, end) := ScanFrom(crc, data, []);
    hide HeaderOk, ScanFrom, SealedBytes, Texts, DecodeFrom, StreamBytes, Index, BlocksBytes, Chain, Inspect, Recover;
    DecodeIsScan(crc, codec, data, true, []);
    SealedIff(crc, data, bs);
    InspectDecides(crc, data, bs, end);
    SealedRecovers(crc, bs);
  }

  /** Append recovery never takes the footer index for a frame. */
  lemma {:induction false} IndexIsNoFrame(crc: Checksum, data: seq<byte>, pos: nat, count: nat)
    requires At(data, pos, IndexMagic())
    ensures NextFrame(crc, data, pos, count).None?
  {
    MagicsDiffer();
    assert |IndexMagic()| == 4;
    hide IndexMagic, MagicV1, FrameBlock;
  }

  lemma {:induction false} SealedRecovers(crc: Checksum, bs: seq<Block>)
    requires |SealedBytes(crc, bs)| < U64_LIMIT && Chain(bs, 0, 0) && |bs| <= MAX_STREAM_BLOCKS
    ensures var data := SealedBytes(crc, bs);
            Recover(crc, data) == if TotalRaw(bs) < U64_LIMIT then Some(Recovered(crc, bs, |data|)) else None
    ensures |StreamBytes(crc, bs)| < |SealedBytes(crc, bs)|
  {
    hide HeaderOk, StreamBytes, Index, BlocksBytes, Chain, Recover, ScanFrames, NextFrame, EntriesBytes;
    var data, entries := SealedBytes(crc, bs), Index(crc, bs, STREAM_HEADER_LEN);
    StreamPlus(crc, data, bs, IndexFooter(entries));
    AtConcat(data, Position(crc, bs), IndexMagic(), Le64(|entries|) + EntriesBytes(entries));
    IndexIsNoFrame(crc, data, Position(crc, bs), |bs|);
    ScanStops(crc, data, bs);
    ScanDecides(crc, data, bs);
  }
}
