/** Append-log recovery (crates/compact-core/src/streaming/append.rs): the longest trustworthy prefix of a stream. */
module Recovery {
  import opened Wrappers
  import opened Bytes
  import opened Limits
  import opened Framing
  import opened BlockStream

  datatype AppendRecovery = AppendRecovery(
    validLen: nat,
    blocks: seq<BlockMetadata>,
    totalRows: nat,
    totalRaw: nat,
    totalEncoded: nat,
    badTail: bool)

  /** The block in the next frame, when a whole valid frame stands at `pos` and `count` blocks were found so far. */
  function NextFrame(crc: Checksum, data: seq<byte>, pos: nat, count: nat): Option<Block> {
    if pos + FRAME_HEADER_LEN > |data| then None
    else if data[pos..pos + 4] != MagicV1() then None
    else
      var payloadLen := Field(data, pos + 6, 8);
      if payloadLen > MAX_ENCODED_BLOCK_BYTES || count >= MAX_STREAM_BLOCKS then None
      else if pos + FRAME_HEADER_LEN + payloadLen > |data| then None
      else FrameBlock(crc, data[pos..pos + FRAME_HEADER_LEN + payloadLen])
  }

  /** A frame is accepted exactly when its bytes are those of the block it yields. */
  lemma {:induction false} NextFrameIff(crc: Checksum, data: seq<byte>, pos: nat, count: nat, b: Block)
    ensures NextFrame(crc, data, pos, count) == Some(b) <==>
            At(data, pos, BlockFrame(crc, b)) && |BlockPayload(b)| <= MAX_ENCODED_BLOCK_BYTES && count < MAX_STREAM_BLOCKS
  {
    hide EncodeFrame, DecodeFrame, BlockPayload, ParseBlock, FrameBlock;
    if At(data, pos, BlockFrame(crc, b)) && |BlockPayload(b)| <= MAX_ENCODED_BLOCK_BYTES {
      FrameAt(crc, data, pos, CODEC_COLUMN_BLOCK, BlockPayload(b));
      FrameBlockIff(crc, data[pos..pos + |BlockFrame(crc, b)|], b);
    }
    if NextFrame(crc, data, pos, count) == Some(b) {
      FrameBlockIff(crc, data[pos..pos + FRAME_HEADER_LEN + Field(data, pos + 6, 8)], b);
    }
  }

  /** A frame above the size limit is not accepted. */
  lemma {:induction false} OversizedFrame(crc: Checksum, data: seq<byte>, pos: nat, count: nat, b: Block)
    requires |data| < U64_LIMIT
    requires At(data, pos, BlockFrame(crc, b)) && |BlockPayload(b)| > MAX_ENCODED_BLOCK_BYTES
    ensures NextFrame(crc, data, pos, count).None?
  {
    hide EncodeFrame, BlockPayload, FrameBlock;
    FrameAt(crc, data, pos, CODEC_COLUMN_BLOCK, BlockPayload(b));
  }

  lemma {:induction false} NoFrameAtEnd(crc: Checksum, data: seq<byte>, count: nat)
    ensures NextFrame(crc, data, |data|, count).None?
  {
  }

  /** What the scanning loop finds: the blocks, where it stopped, and whether the row numbers overflowed. */
  datatype Scan = Scan(blocks: seq<Block>, end: nat, overflow: bool)

  function ScanFrames(crc: Checksum, data: seq<byte>, pos: nat, index: nat, row: nat): Scan
    decreases |data| - pos
  {
    match NextFrame(crc, data, pos, index)
    case None => Scan([], pos, false)
    case Some(b) =>
      NextFrameIff(crc, data, pos, index, b);
      if b.index != index || b.firstRow != row then Scan([], pos, false)
      else if row + b.rows >= U64_LIMIT then Scan([], pos, true)
      else
        var rest := ScanFrames(crc, data, pos + |BlockFrame(crc, b)|, index + 1, row + b.rows);
        Scan([b] + rest.blocks, rest.end, rest.overflow)
  }

  function SumRows(ms: seq<BlockMetadata>): nat {
    if ms == [] then 0 else ms[0].rows + SumRows(ms[1..])
  }

  function SumRaw(ms: seq<BlockMetadata>): nat {
    if ms == [] then 0 else ms[0].rawSize + SumRaw(ms[1..])
  }

  function SumEncoded(ms: seq<BlockMetadata>): nat {
    if ms == [] then 0 else ms[0].encodedSize + SumEncoded(ms[1..])
  }

  function EmptyRecovery(badTail: bool): AppendRecovery {
    AppendRecovery(0, [], 0, 0, 0, badTail)
  }

  /** None stands for the error returned when a total does not fit in 64 bits. */
  function Recover(crc: Checksum, data: seq<byte>): (r: Option<AppendRecovery>)
    ensures r.Some? ==> r.value.validLen <= |data| && r.value.totalRows < U64_LIMIT
  {
    if data == [] then Some(EmptyRecovery(false))
    else if !HeaderOk(data) then Some(EmptyRecovery(true))
    else
      var scan := ScanFrames(crc, data, STREAM_HEADER_LEN, 0, 0);
      var ms := Index(crc, scan.blocks, STREAM_HEADER_LEN);
      ScanSound(crc, data, STREAM_HEADER_LEN, 0, 0);
      if scan.overflow || SumRows(ms) >= U64_LIMIT || SumRaw(ms) >= U64_LIMIT || SumEncoded(ms) >= U64_LIMIT then None
      else Some(AppendRecovery(scan.end, ms, SumRows(ms), SumRaw(ms), SumEncoded(ms), scan.end < |data|))
  }

  // ----- the recovery loop -----

  function Behind(found: seq<Block>, rest: Scan): Scan {
    Scan(found + rest.blocks, rest.end, rest.overflow)
  }

  lemma {:induction false} ScanStep(crc: Checksum, data: seq<byte>, pos: nat, index: nat, row: nat, found: seq<Block>)
    requires NextFrame(crc, data, pos, index).Some?
    requires var b := NextFrame(crc, data, pos, index).value;
             b.index == index && b.firstRow == row && row + b.rows < U64_LIMIT
    ensures var b := NextFrame(crc, data, pos, index).value;
            Behind(found, ScanFrames(crc, data, pos, index, row))
            == Behind(found + [b], ScanFrames(crc, data, pos + |BlockFrame(crc, b)|, index + 1, row + b.rows))
  {
    hide NextFrame, BlockFrame;
    var b := NextFrame(crc, data, pos, index).value;
    var rest := ScanFrames(crc, data, pos + |BlockFrame(crc, b)|, index + 1, row + b.rows);
    assert found + ([b] + rest.blocks) == (found + [b]) + rest.blocks;
  }

  /** The scanning loop, with its cursor, its expected numbers and its tail flag; None is the overflow error. */
  method ScanRecords(crc: Checksum, data: seq<byte>) returns (r: Option<(nat, seq<BlockMetadata>, bool)>)
    requires STREAM_HEADER_LEN <= |data|
    ensures var goal := ScanFrames(crc, data, STREAM_HEADER_LEN, 0, 0);
      r == if goal.overflow then None else Some((goal.end, Index(crc, goal.blocks, STREAM_HEADER_LEN), goal.end < |data|))
  {
    hide BlockFrame, NextFrame, BlocksBytes, Index, MetadataOf;
    var cursor := STREAM_HEADER_LEN;
    var blocks: seq<BlockMetadata> := [];
    var expectedIndex: nat, expectedRow: nat := 0, 0;
    var badTail := false;
    ghost var found: seq<Block> := [];
    ghost var goal := ScanFrames(crc, data, STREAM_HEADER_LEN, 0, 0);
    EmptyStream(crc);
    while cursor < |data| && !badTail
      invariant cursor <= |data|
      invariant expectedIndex == |found| == |blocks|
      invariant blocks == Index(crc, found, STREAM_HEADER_LEN)
      invariant cursor == STREAM_HEADER_LEN + |BlocksBytes(crc, found)|
      invariant goal == Behind(found, ScanFrames(crc, data, cursor, expectedIndex, expectedRow))
      invariant badTail ==> goal == Scan(found, cursor, false) && cursor < |data|
      decreases |data| - cursor, if badTail then 0 else 1
    {
      var next := NextFrame(crc, data, cursor, |blocks|);
      if next.None? || next.value.index != expectedIndex || next.value.firstRow != expectedRow {
        badTail := true;
        assert Behind(found, Scan([], cursor, false)) == Scan(found, cursor, false);
      } else {
        var b := next.value;
        NextFrameIff(crc, data, cursor, |blocks|, b);
        var recordLen := |BlockFrame(crc, b)|;
        if expectedRow + b.rows >= U64_LIMIT {
          return None;
        }
        BlocksSnoc(crc, found, b, STREAM_HEADER_LEN);
        ScanStep(crc, data, cursor, expectedIndex, expectedRow, found);
        blocks := blocks + [MetadataOf(crc, b, cursor)];
        found := found + [b];
        expectedIndex := expectedIndex + 1;
        expectedRow := expectedRow + b.rows;
        cursor := cursor + recordLen;
      }
    }
    if !badTail {
      NoFrameAtEnd(crc, data, expectedIndex);
      assert Behind(found, Scan([], cursor, false)) == Scan(found, cursor, false);
    }
    return Some((cursor, blocks, badTail));
  }

  lemma {:induction false} EmptyStream(crc: Checksum)
    ensures BlocksBytes(crc, []) == [] && Index(crc, [], STREAM_HEADER_LEN) == []
  {
  }

  /** `recover_append_stream`: header, scan, then the three checked totals. */
  method RecoverAppendStream(crc: Checksum, data: seq<byte>) returns (r: Option<AppendRecovery>)
    ensures r == Recover(crc, data)
  {
    if data == [] {
      return Some(EmptyRecovery(false));
    }
    if !HeaderOk(data) {
      return Some(EmptyRecovery(true));
    }
    var scanned := ScanRecords(crc, data);
    hide HeaderOk, ScanFrames, Index;
    if scanned.None? {
      return None;
    }
    var (cursor, blocks, badTail) := scanned.value;
    var totalRows := CheckedTotal(blocks, (m: BlockMetadata) => m.rows, SumRows);
    var totalRaw := CheckedTotal(blocks, (m: BlockMetadata) => m.rawSize, SumRaw);
    var totalEncoded := CheckedTotal(blocks, (m: BlockMetadata) => m.encodedSize, SumEncoded);
    if totalRows.None? || totalRaw.None? || totalEncoded.None? {
      return None;
    }
    return Some(AppendRecovery(cursor, blocks, totalRows.value, totalRaw.value, totalEncoded.value, badTail));
  }

  /** `checked_total`: the sum of one field over all blocks, or None when it overflows 64 bits on the way. */
  method CheckedTotal(blocks: seq<BlockMetadata>, value: BlockMetadata -> u64, ghost sum: seq<BlockMetadata> -> nat)
    returns (total: Option<nat>)
    requires sum([]) == 0 && forall ms :: ms != [] ==> sum(ms) == value(ms[0]) + sum(ms[1..])
    ensures total == if sum(blocks) < U64_LIMIT then Some(sum(blocks)) else None
  {
    var t := 0;
    for k := 0 to |blocks|
      invariant t + sum(blocks[k..]) == sum(blocks)
      invariant t < U64_LIMIT
    {
      assert blocks[k..][1..] == blocks[k + 1..];
      assert sum(blocks[k..]) == value(blocks[k]) + sum(blocks[k + 1..]);
      if t + value(blocks[k]) >= U64_LIMIT {
        return None;
      }
      t := t + value(blocks[k]);
    }
    assert blocks[|blocks|..] == [];
    return Some(t);
  }

  // ----- what recovery finds -----

  lemma {:induction false} OneMoreFrame(crc: Checksum, data: seq<byte>, pos: nat, b: Block, rest: seq<Block>)
    requires At(data, pos, BlockFrame(crc, b)) && |BlockPayload(b)| <= MAX_ENCODED_BLOCK_BYTES && b.firstRow + b.rows < U64_LIMIT
    requires At(data, pos + |BlockFrame(crc, b)|, BlocksBytes(crc, rest)) && Chain(rest, b.index + 1, b.firstRow + b.rows)
    ensures At(data, pos, BlocksBytes(crc, [b] + rest)) && Chain([b] + rest, b.index, b.firstRow)
    ensures |BlocksBytes(crc, [b] + rest)| == |BlockFrame(crc, b)| + |BlocksBytes(crc, rest)|
  {
    hide BlockFrame, BlockPayload, At;
    AtConcat(data, pos, BlockFrame(crc, b), BlocksBytes(crc, rest));
    assert ([b] + rest)[1..] == rest;
  }

  lemma {:induction false} NoFrames(crc: Checksum, data: seq<byte>, pos: nat, index: nat, row: nat)
    requires pos <= |data|
    ensures At(data, pos, BlocksBytes(crc, [])) && BlocksBytes(crc, []) == [] && Chain([], index, row)
  {
  }

  lemma {:induction false} ScanSound(crc: Checksum, data: seq<byte>, pos: nat, index: nat, row: nat)
    requires pos <= |data| && index <= MAX_STREAM_BLOCKS
    ensures var s := ScanFrames(crc, data, pos, index, row);
            && At(data, pos, BlocksBytes(crc, s.blocks)) && s.end == pos + |BlocksBytes(crc, s.blocks)|
            && Chain(s.blocks, index, row) && index + |s.blocks| <= MAX_STREAM_BLOCKS
    decreases |data| - pos
  {
    hide BlockFrame, BlockPayload, NextFrame, At, BlocksBytes, Chain;
    NoFrames(crc, data, pos, index, row);
    var next := NextFrame(crc, data, pos, index);
    if next.Some? {
      var b := next.value;
      NextFrameIff(crc, data, pos, index, b);
      AtSlice(data, pos, BlockFrame(crc, b));
      if b.index == index && b.firstRow == row && row + b.rows < U64_LIMIT {
        var after := pos + |BlockFrame(crc, b)|;
        ScanSound(crc, data, after, index + 1, row + b.rows);
        OneMoreFrame(crc, data, pos, b, ScanFrames(crc, data, after, index + 1, row + b.rows).blocks);
      }
    }
  }

  /** Written blocks are found again, and the scan goes on behind them. */
  lemma {:induction false} ScanFinds(crc: Checksum, data: seq<byte>, pos: nat, index: nat, row: nat, bs: seq<Block>)
    requires At(data, pos, BlocksBytes(crc, bs))
    requires Chain(bs, index, row) && index + |bs| <= MAX_STREAM_BLOCKS
    ensures ScanFrames(crc, data, pos, index, row) ==
            Behind(bs, ScanFrames(crc, data, pos + |BlocksBytes(crc, bs)|, index + |bs|, row + TotalRows(bs)))
    decreases |bs|
  {
    hide BlockFrame, BlockPayload, NextFrame, ScanFrames;
    var rest := ScanFrames(crc, data, pos + |BlocksBytes(crc, bs)|, index + |bs|, row + TotalRows(bs));
    if bs == [] {
      assert [] + rest.blocks == rest.blocks;
    } else {
      var frame := BlockFrame(crc, bs[0]);
      AtConcat(data, pos, frame, BlocksBytes(crc, bs[1..]));
      NextFrameIff(crc, data, pos, index, bs[0]);
      ScanFinds(crc, data, pos + |frame|, index + 1, row + bs[0].rows, bs[1..]);
      BehindTwo(crc, data, pos, index, row, bs, rest);
    }
  }

  lemma {:induction false} BehindTwo(crc: Checksum, data: seq<byte>, pos: nat, index: nat, row: nat, bs: seq<Block>,
                                     rest: Scan)
    requires bs != [] && NextFrame(crc, data, pos, index) == Some(bs[0])
    requires bs[0].index == index && bs[0].firstRow == row && row + bs[0].rows < U64_LIMIT
    requires ScanFrames(crc, data, pos + |BlockFrame(crc, bs[0])|, index + 1, row + bs[0].rows) == Behind(bs[1..], rest)
    ensures ScanFrames(crc, data, pos, index, row) == Behind(bs, rest)
  {
    hide BlockFrame, NextFrame;
    assert [bs[0]] + (bs[1..] + rest.blocks) == bs + rest.blocks;
  }

  /** Written blocks with no valid frame behind them are all that is found. */
  lemma {:induction false} ScanStops(crc: Checksum, data: seq<byte>, bs: seq<Block>)
    requires At(data, STREAM_HEADER_LEN, BlocksBytes(crc, bs))
    requires Chain(bs, 0, 0) && |bs| <= MAX_STREAM_BLOCKS
    requires NextFrame(crc, data, STREAM_HEADER_LEN + |BlocksBytes(crc, bs)|, |bs|).None?
    ensures ScanFrames(crc, data, STREAM_HEADER_LEN, 0, 0) == Scan(bs, STREAM_HEADER_LEN + |BlocksBytes(crc, bs)|, false)
  {
    hide BlockFrame, NextFrame, BlocksBytes, Chain;
    ScanFinds(crc, data, STREAM_HEADER_LEN, 0, 0, bs);
    assert bs + [] == bs;
  }

  /** The rest of a frame that was cut short is never taken for a frame. */
  lemma {:induction false} CutFrame(crc: Checksum, data: seq<byte>, k: nat, pos: nat, count: nat, b: Block)
    requires At(data, pos, BlockFrame(crc, b)) && |BlockPayload(b)| <= MAX_ENCODED_BLOCK_BYTES
    requires k < pos + |BlockFrame(crc, b)| && k <= |data|
    ensures NextFrame(crc, data[..k], pos, count).None?
  {
    var next := NextFrame(crc, data[..k], pos, count);
    if next.Some? {
      NextFrameIff(crc, data[..k], pos, count, next.value);
      AtPrefix(data[..k], data[k..], pos, BlockFrame(crc, next.value));
      assert data[..k] + data[k..] == data;
      FrameAt(crc, data, pos, CODEC_COLUMN_BLOCK, BlockPayload(next.value));
      FrameAt(crc, data, pos, CODEC_COLUMN_BLOCK, BlockPayload(b));
    }
  }

  lemma {:induction false} IndexSums(crc: Checksum, bs: seq<Block>, offset: nat, index: nat, row: nat)
    requires Chain(bs, index, row)
    ensures SumRows(Index(crc, bs, offset)) == TotalRows(bs)
    ensures SumRaw(Index(crc, bs, offset)) == TotalRaw(bs)
    ensures SumEncoded(Index(crc, bs, offset)) == |BlocksBytes(crc, bs)|
    ensures row < U64_LIMIT ==> row + TotalRows(bs) < U64_LIMIT
    decreases |bs|
  {
    if bs != [] {
      IndexSums(crc, bs[1..], offset + |BlockFrame(crc, bs[0])|, index + 1, row + bs[0].rows);
    }
  }

  /** The recovery result for a stream whose trustworthy blocks are `bs`. */
  function Recovered(crc: Checksum, bs: seq<Block>, dataLen: nat): AppendRecovery {
    var validLen := |StreamBytes(crc, bs)|;
    AppendRecovery(validLen, Index(crc, bs, STREAM_HEADER_LEN), TotalRows(bs), TotalRaw(bs), |BlocksBytes(crc, bs)|, validLen < dataLen)
  }

  /** The blocks `bs` stand directly behind the stream header. */
  predicate Holds(crc: Checksum, data: seq<byte>, bs: seq<Block>) {
    At(data, STREAM_HEADER_LEN, BlocksBytes(crc, bs))
  }

  lemma {:induction false} ScannedPrefix(crc: Checksum, data: seq<byte>)
    requires HeaderOk(data)
    ensures var s := ScanFrames(crc, data, STREAM_HEADER_LEN, 0, 0);
            && Holds(crc, data, s.blocks) && Chain(s.blocks, 0, 0) && |s.blocks| <= MAX_STREAM_BLOCKS
            && s.end == |StreamBytes(crc, s.blocks)| <= |data|
  {
    HeaderLength(data);
    hide NextFrame, ScanFrames, HeaderOk, BlocksBytes, Chain;
    ScanSound(crc, data, STREAM_HEADER_LEN, 0, 0);
    WholeStream(crc, ScanFrames(crc, data, STREAM_HEADER_LEN, 0, 0).blocks);
  }

  lemma {:induction false} HeaderLength(data: seq<byte>)
    requires HeaderOk(data)
    ensures STREAM_HEADER_LEN <= |data|
  {
  }

  lemma {:induction false} ScanDecides(crc: Checksum, data: seq<byte>, bs: seq<Block>)
    requires |data| < U64_LIMIT && HeaderOk(data)
    requires ScanFrames(crc, data, STREAM_HEADER_LEN, 0, 0).blocks == bs
    requires !ScanFrames(crc, data, STREAM_HEADER_LEN, 0, 0).overflow
    ensures Recover(crc, data) == if TotalRaw(bs) < U64_LIMIT then Some(Recovered(crc, bs, |data|)) else None
  {
    HeaderLength(data);
    hide At, Holds, NextFrame, ScanFrames, HeaderOk, StreamHeader, BlocksBytes, Index, Chain, SumRows, SumRaw;
    hide SumEncoded, TotalRaw, TotalRows, StreamBytes;
    ScannedPrefix(crc, data);
    IndexSums(crc, bs, STREAM_HEADER_LEN, 0, 0);
    WholeStream(crc, bs);
  }

  lemma {:induction false} RecoveredMeansNoOverflow(crc: Checksum, data: seq<byte>)
    requires HeaderOk(data) && Recover(crc, data).Some?
    ensures !ScanFrames(crc, data, STREAM_HEADER_LEN, 0, 0).overflow
  {
  }

  lemma {:induction false} PrefixFound(crc: Checksum, data: seq<byte>, bs: seq<Block>)
    requires Holds(crc, data, bs) && Chain(bs, 0, 0) && |bs| <= MAX_STREAM_BLOCKS
    ensures bs <= ScanFrames(crc, data, STREAM_HEADER_LEN, 0, 0).blocks
  {
    hide BlocksBytes, ScanFrames, Chain, At;
    ScanFinds(crc, data, STREAM_HEADER_LEN, 0, 0, bs);
  }

  /**
    Recovery returns the metadata of a chain of blocks that the buffer starts with, and of the longest one:
    every chain behind the header is a prefix of the recovered one.
  */
  lemma {:induction false} RecoveryIsMaximal(crc: Checksum, data: seq<byte>)
    requires |data| < U64_LIMIT && HeaderOk(data) && Recover(crc, data).Some?
    ensures var bs := ScanFrames(crc, data, STREAM_HEADER_LEN, 0, 0).blocks;
            && Recover(crc, data) == Some(Recovered(crc, bs, |data|))
            && Holds(crc, data, bs) && Chain(bs, 0, 0)
    ensures forall bs :: Holds(crc, data, bs) && Chain(bs, 0, 0) && |bs| <= MAX_STREAM_BLOCKS ==>
            bs <= ScanFrames(crc, data, STREAM_HEADER_LEN, 0, 0).blocks
  {
    RecoveredMeansNoOverflow(crc, data);
    hide Holds, Chain, HeaderOk, ScanFrames, Recover, Recovered;
    ScanDecides(crc, data, ScanFrames(crc, data, STREAM_HEADER_LEN, 0, 0).blocks);
    ScannedPrefix(crc, data);
    forall bs | Holds(crc, data, bs) && Chain(bs, 0, 0) && |bs| <= MAX_STREAM_BLOCKS
      ensures bs <= ScanFrames(crc, data, STREAM_HEADER_LEN, 0, 0).blocks
    {
      PrefixFound(crc, data, bs);
    }
  }

  /** How many blocks' frames lie completely within the first `k` bytes of a run of frames. */
  function WholeFrames(crc: Checksum, bs: seq<Block>, k: nat): (n: nat)
    ensures n <= |bs|
    ensures |BlocksBytes(crc, bs[..n])| <= k
    ensures n < |bs| ==> k < |BlocksBytes(crc, bs[..n])| + |BlockFrame(crc, bs[n])|
    decreases |bs|
  {
    if bs == [] || |BlockFrame(crc, bs[0])| > k then 0
    else
      var n := 1 + WholeFrames(crc, bs[1..], k - |BlockFrame(crc, bs[0])|);
      assert bs[..n][1..] == bs[1..][..n - 1];
      n
  }

  /** Behind the kept blocks stands the first lost one. */
  lemma {:induction false} LostFrameAt(crc: Checksum, kept: seq<Block>, lost: seq<Block>)
    requires lost != []
    ensures At(StreamBytes(crc, kept + lost), STREAM_HEADER_LEN + |BlocksBytes(crc, kept)|, BlockFrame(crc, lost[0]))
  {
    hide BlockFrame, StreamHeader;
    BlocksAppend(crc, kept, lost);
    AtOwn(StreamHeader(), BlocksBytes(crc, kept), BlocksBytes(crc, lost));
    AtConcat(StreamBytes(crc, kept + lost), STREAM_HEADER_LEN + |BlocksBytes(crc, kept)|, BlockFrame(crc, lost[0]), BlocksBytes(crc, lost[1..]));
  }

  /** A cut behind the kept blocks keeps the header and them. */
  lemma {:induction false} KeptAt(crc: Checksum, kept: seq<Block>, lost: seq<Block>, k: nat)
    requires STREAM_HEADER_LEN + |BlocksBytes(crc, kept)| <= k <= |StreamBytes(crc, kept + lost)|
    ensures var cut := StreamBytes(crc, kept + lost)[..k];
            At(cut, 0, StreamHeader()) && At(cut, STREAM_HEADER_LEN, BlocksBytes(crc, kept))
  {
    hide BlockFrame, StreamHeader;
    var data := StreamBytes(crc, kept + lost);
    BlocksAppend(crc, kept, lost);
    AtOwn(StreamHeader(), BlocksBytes(crc, kept), BlocksBytes(crc, lost));
    AtCut(data, k, 0, StreamHeader());
    AtCut(data, k, STREAM_HEADER_LEN, BlocksBytes(crc, kept));
  }

  /** What a buffer cut at `k` still holds of a stream: the header, the whole frames, and no other frame. */
  lemma {:induction false} CutStream(crc: Checksum, bs: seq<Block>, k: nat)
    requires Chain(bs, 0, 0)
    requires STREAM_HEADER_LEN <= k <= |StreamBytes(crc, bs)|
    ensures var cut, kept := StreamBytes(crc, bs)[..k], bs[..WholeFrames(crc, bs, k - STREAM_HEADER_LEN)];
            && HeaderOk(cut) && At(cut, STREAM_HEADER_LEN, BlocksBytes(crc, kept)) && Chain(kept, 0, 0)
            && NextFrame(crc, cut, STREAM_HEADER_LEN + |BlocksBytes(crc, kept)|, |kept|).None?
  {
    hide BlockFrame, BlockPayload, NextFrame, HeaderOk, StreamHeader, StreamBytes, BlocksBytes;
    var cut, n := StreamBytes(crc, bs)[..k], WholeFrames(crc, bs, k - STREAM_HEADER_LEN);
    var kept, lost := bs[..n], bs[n..];
    assert bs == kept + lost;
    KeptAt(crc, kept, lost, k);
    HeaderOkIff(cut);
    BlocksAppend(crc, kept, lost);
    ChainAppend(kept, lost, 0, 0);
    if lost == [] {
      assert kept == bs;
      WholeStream(crc, bs);
      NoFrameAtEnd(crc, cut, n);
    } else {
      LostFrameAt(crc, kept, lost);
      CutFrame(crc, StreamBytes(crc, bs), k, STREAM_HEADER_LEN + |BlocksBytes(crc, kept)|, n, lost[0]);
    }
  }

  /**
    Crash consistency: a stream cut at any byte at or after its header recovers exactly the blocks whose
    frames end by the cut, and reports a bad tail exactly when the cut is not at a frame boundary. It fails
    exactly when the raw sizes of these blocks add up to more than 64 bits.
  */
  lemma {:induction false} CrashConsistency(crc: Checksum, bs: seq<Block>, k: nat)
    requires Chain(bs, 0, 0) && |bs| <= MAX_STREAM_BLOCKS
    requires STREAM_HEADER_LEN <= k <= |StreamBytes(crc, bs)| && k < U64_LIMIT
    ensures var kept := bs[..WholeFrames(crc, bs, k - STREAM_HEADER_LEN)];
            Recover(crc, StreamBytes(crc, bs)[..k]) == if TotalRaw(kept) < U64_LIMIT then Some(Recovered(crc, kept, k)) else None
  {
    hide WholeFrames, Chain, Recover, ScanFrames, HeaderOk, StreamBytes, NextFrame, BlocksBytes, Recovered, TotalRaw;
    var kept := bs[..WholeFrames(crc, bs, k - STREAM_HEADER_LEN)];
    CutStream(crc, bs, k);
    ScanStops(crc, StreamBytes(crc, bs)[..k], kept);
    ScanDecides(crc, StreamBytes(crc, bs)[..k], kept);
  }

  /** Whatever follows a written stream, a successful recovery still begins with all of its blocks. */
  lemma {:induction false} GarbageTail(crc: Checksum, bs: seq<Block>, garbage: seq<byte>)
    requires Chain(bs, 0, 0) && |bs| <= MAX_STREAM_BLOCKS
    requires |StreamBytes(crc, bs) + garbage| < U64_LIMIT
    requires Recover(crc, StreamBytes(crc, bs) + garbage).Some?
    ensures var r := Recover(crc, StreamBytes(crc, bs) + garbage).value;
            Index(crc, bs, STREAM_HEADER_LEN) <= r.blocks && |StreamBytes(crc, bs)| <= r.validLen
  {
    var data := StreamBytes(crc, bs) + garbage;
    StreamThen(crc, bs, garbage);
    hide StreamBytes, Holds, HeaderOk, Recover, ScanFrames, Index, BlocksBytes, Chain;
    RecoveryIsMaximal(crc, data);
    var all := ScanFrames(crc, data, STREAM_HEADER_LEN, 0, 0).blocks;
    assert all == bs + all[|bs|..];
    IndexAppend(crc, bs, all[|bs|..], STREAM_HEADER_LEN);
    BlocksAppend(crc, bs, all[|bs|..]);
    WholeStream(crc, bs);
    WholeStream(crc, all);
  }

  lemma {:induction false} StreamThen(crc: Checksum, bs: seq<Block>, tail: seq<byte>)
    ensures HeaderOk(StreamBytes(crc, bs) + tail) && Holds(crc, StreamBytes(crc, bs) + tail, bs)
  {
    hide BlocksBytes, HeaderOk, StreamHeader, At;
    var (h, b) := (StreamHeader(), BlocksBytes(crc, bs));
    var data := (h + b) + tail;
    AtOwn([], h + b, tail);
    assert [] + ((h + b) + tail) == data;
    AtConcat(data, 0, h, b);
    HeaderOkIff(data);
  }
}
