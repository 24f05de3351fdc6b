/**
  The CMP2 wire format shared by the writer, the readers and recovery
  (crates/compact-core/src/streaming): stream header, BLK1 blocks in CMP1 frames, IDX1 footer index.
*/
module BlockStream {
  import opened Wrappers
  import opened Bytes
  import opened Limits
  import opened Framing

  const STREAM_HEADER_LEN: nat := 10
  const BLOCK_HEADER_LEN: nat := 44
  const INDEX_ENTRY_LEN: nat := 44

  function MagicV2(): seq<byte> { Magic(0x43, 0x4D, 0x50, 0x32) }
  function BlockMagic(): seq<byte> { Magic(0x42, 0x4C, 0x4B, 0x31) }
  function IndexMagic(): seq<byte> { Magic(0x49, 0x44, 0x58, 0x31) }

  datatype Block = Block(index: u64, firstRow: u64, rows: u64, rawSize: u64, column: seq<byte>)

  datatype BlockMetadata = BlockMetadata(index: u64, offset: u64, rows: u64, rawSize: u64, encodedSize: u64, checksum: u32)

  // ----- stream header -----

  function StreamHeader(): (h: seq<byte>)
    ensures |h| == STREAM_HEADER_LEN
  {
    MagicV2() + ([2, 0] + Le32(0))
  }

  predicate HeaderOk(data: seq<byte>) {
    && STREAM_HEADER_LEN <= |data|
    && data[..4] == MagicV2()
    && data[4] == 2
    && data[5] == 0
    && Field(data, 6, 4) == 0
  }

  lemma {:induction false} HeaderOkIff(data: seq<byte>)
    ensures HeaderOk(data) <==> At(data, 0, StreamHeader())
  {
    Pow256Values();
    AtConcat(data, 0, MagicV2(), [2, 0] + Le32(0));
    AtConcat(data, 4, [2, 0], Le32(0));
    AtField(data, 6, 4, 0);
    if 6 <= |data| {
      assert data[4..6] == [data[4], data[5]];
    }
  }

  // ----- one block -----

  function BlockPayload(b: Block): (p: seq<byte>)
    ensures |p| == BLOCK_HEADER_LEN + |b.column|
  {
    BlockMagic() + (Le64(b.index) + (Le64(b.firstRow) + (Le64(b.rows) + (Le64(b.rawSize) + (Le64(|b.column|) + b.column)))))
  }

  /** `parse_block_payload` of the reader and `parse_append_block_payload` of recovery do the same. */
  function ParseBlock(p: seq<byte>): Option<Block> {
    if |p| < BLOCK_HEADER_LEN then None
    else if p[..4] != BlockMagic() then None
    else if |p| != BLOCK_HEADER_LEN + Field(p, 36, 8) then None
    else
      FieldBound(p, 4, 8); FieldBound(p, 12, 8); FieldBound(p, 20, 8); FieldBound(p, 28, 8); Pow256Values();
      Some(Block(Field(p, 4, 8), Field(p, 12, 8), Field(p, 20, 8), Field(p, 28, 8), p[BLOCK_HEADER_LEN..]))
  }

  /** A block payload is its fields at fixed positions. */
  lemma {:induction false} PayloadAt(p: seq<byte>, b: Block)
    requires |p| == BLOCK_HEADER_LEN + |b.column| && |p| < U64_LIMIT
    ensures At(p, 0, BlockPayload(b)) <==>
            && At(p, 0, BlockMagic()) && Field(p, 4, 8) == b.index && Field(p, 12, 8) == b.firstRow
            && Field(p, 20, 8) == b.rows && Field(p, 28, 8) == b.rawSize && Field(p, 36, 8) == |b.column|
            && At(p, BLOCK_HEADER_LEN, b.column)
  {
    hide At, Field, Le;
    Pow256Values();
    var t5 := Le64(|b.column|) + b.column;
    var t4 := Le64(b.rawSize) + t5;
    var t3 := Le64(b.rows) + t4;
    var t2 := Le64(b.firstRow) + t3;
    AtConcat(p, 0, BlockMagic(), Le64(b.index) + t2);
    AtConcat(p, 4, Le64(b.index), t2);
    AtConcat(p, 12, Le64(b.firstRow), t3);
    AtConcat(p, 20, Le64(b.rows), t4);
    AtConcat(p, 28, Le64(b.rawSize), t5);
    AtConcat(p, 36, Le64(|b.column|), b.column);
    AtField(p, 4, 8, b.index);
    AtField(p, 12, 8, b.firstRow);
    AtField(p, 20, 8, b.rows);
    AtField(p, 28, 8, b.rawSize);
    AtField(p, 36, 8, |b.column|);
  }

  lemma {:induction false} ParseBlockIff(p: seq<byte>, b: Block)
    requires |p| < U64_LIMIT
    ensures ParseBlock(p) == Some(b) <==> p == BlockPayload(b)
  {
    hide Field, BlockPayload;
    if |p| == BLOCK_HEADER_LEN + |b.column| {
      PayloadAt(p, b);
      assert p[0..|p|] == p && p[0..4] == p[..4];
      assert p[BLOCK_HEADER_LEN..BLOCK_HEADER_LEN + |b.column|] == p[BLOCK_HEADER_LEN..];
    }
  }

  function BlockFrame(crc: Checksum, b: Block): (d: seq<byte>)
    ensures |d| == FRAME_HEADER_LEN + BLOCK_HEADER_LEN + |b.column|
  {
    EncodeFrame(crc, CODEC_COLUMN_BLOCK, BlockPayload(b))
  }

  /** The checks every scanner makes on one frame: checksum, codec, block header. */
  function FrameBlock(crc: Checksum, frame: seq<byte>): Option<Block> {
    match DecodeFrame(crc, frame)
    case None => None
    case Some(decoded) => if decoded.codec != CODEC_COLUMN_BLOCK then None else ParseBlock(decoded.payload)
  }

  lemma {:induction false} FrameBlockIff(crc: Checksum, frame: seq<byte>, b: Block)
    requires |frame| < U64_LIMIT
    ensures FrameBlock(crc, frame) == Some(b) <==> frame == BlockFrame(crc, b)
  {
    var decoded := DecodeFrame(crc, frame);
    DecodeFrameIff(crc, frame, CODEC_COLUMN_BLOCK, BlockPayload(b));
    if decoded.Some? {
      DecodeFrameIff(crc, frame, decoded.value.codec, decoded.value.payload);
      ParseBlockIff(decoded.value.payload, b);
    }
    if frame == BlockFrame(crc, b) {
      ParseBlockIff(BlockPayload(b), b);
    }
  }

  function MetadataOf(crc: Checksum, b: Block, offset: nat): BlockMetadata {
    BlockMetadata(b.index, AsU64(offset), b.rows, b.rawSize, AsU64(|BlockFrame(crc, b)|), crc(BlockPayload(b)))
  }

  // ----- index footer -----

  function EntryBytes(m: BlockMetadata): (e: seq<byte>)
    ensures |e| == INDEX_ENTRY_LEN
  {
    Le64(m.index) + (Le64(m.offset) + (Le64(m.rows) + (Le64(m.rawSize) + (Le64(m.encodedSize) + Le32(m.checksum)))))
  }

  function EntriesBytes(ms: seq<BlockMetadata>): (e: seq<byte>)
    ensures |e| == INDEX_ENTRY_LEN * |ms|
  {
    if ms == [] then [] else EntryBytes(ms[0]) + EntriesBytes(ms[1..])
  }

  function IndexFooter(ms: seq<BlockMetadata>): (f: seq<byte>)
    ensures |f| == 12 + INDEX_ENTRY_LEN * |ms|
  {
    IndexMagic() + (Le64(|ms|) + EntriesBytes(ms))
  }

  function ReadEntry(data: seq<byte>, pos: nat): BlockMetadata {
    FieldBound(data, pos, 8); FieldBound(data, pos + 8, 8); FieldBound(data, pos + 16, 8);
    FieldBound(data, pos + 24, 8); FieldBound(data, pos + 32, 8); FieldBound(data, pos + 40, 4);
    Pow256Values();
    BlockMetadata(Field(data, pos, 8), Field(data, pos + 8, 8), Field(data, pos + 16, 8),
                  Field(data, pos + 24, 8), Field(data, pos + 32, 8), Field(data, pos + 40, 4))
  }

  /** Entries `from..count` of an index, each complete and numbered by its place. */
  function ReadEntries(data: seq<byte>, pos: nat, from: nat, count: nat): (r: Option<seq<BlockMetadata>>)
    requires from <= count
    ensures r.Some? ==> |r.value| == count - from
    decreases count - from
  {
    if from == count then Some([])
    else if pos + INDEX_ENTRY_LEN > |data| then None
    else
      var entry := ReadEntry(data, pos);
      if entry.index != from then None
      else
        match ReadEntries(data, pos + INDEX_ENTRY_LEN, from + 1, count)
        case None => None
        case Some(rest) => Some([entry] + rest)
  }

  /** `read_index_footer_after_magic`: the entries, or None when the footer is malformed. */
  function ReadIndex(data: seq<byte>, pos: nat): Option<seq<BlockMetadata>> {
    if pos + 8 > |data| then None
    else
      var count := Field(data, pos, 8);
      if count > MAX_STREAM_BLOCKS then None else ReadEntries(data, pos + 8, 0, count)
  }

  ghost predicate Numbered(ms: seq<BlockMetadata>, from: nat) {
    forall k :: 0 <= k < |ms| ==> ms[k].index == from + k
  }

  lemma {:induction false} EntryAt(data: seq<byte>, pos: nat, m: BlockMetadata)
    ensures At(data, pos, EntryBytes(m)) <==> pos + INDEX_ENTRY_LEN <= |data| && ReadEntry(data, pos) == m
  {
    Pow256Values();
    var t5 := Le64(m.encodedSize) + Le32(m.checksum);
    var t4 := Le64(m.rawSize) + t5;
    var t3 := Le64(m.rows) + t4;
    var t2 := Le64(m.offset) + t3;
    AtConcat(data, pos, Le64(m.index), t2);
    AtConcat(data, pos + 8, Le64(m.offset), t3);
    AtConcat(data, pos + 16, Le64(m.rows), t4);
    AtConcat(data, pos + 24, Le64(m.rawSize), t5);
    AtConcat(data, pos + 32, Le64(m.encodedSize), Le32(m.checksum));
    AtField(data, pos, 8, m.index);
    AtField(data, pos + 8, 8, m.offset);
    AtField(data, pos + 16, 8, m.rows);
    AtField(data, pos + 24, 8, m.rawSize);
    AtField(data, pos + 32, 8, m.encodedSize);
    AtField(data, pos + 40, 4, m.checksum);
  }

  lemma {:induction false} NumberedCons(ms: seq<BlockMetadata>, from: nat)
    requires ms != []
    ensures Numbered(ms, from) <==> ms[0].index == from && Numbered(ms[1..], from + 1)
  {
    if ms[0].index == from && Numbered(ms[1..], from + 1) {
      forall k | 0 <= k < |ms|
        ensures ms[k].index == from + k
      {
        if k > 0 {
          assert ms[1..][k - 1].index == from + 1 + (k - 1);
        }
      }
    }
  }

  lemma {:induction false} ReadEntriesCons(data: seq<byte>, pos: nat, from: nat, ms: seq<BlockMetadata>)
    requires ms != []
    ensures ReadEntries(data, pos, from, from + |ms|) == Some(ms) <==>
            && pos + INDEX_ENTRY_LEN <= |data| && ReadEntry(data, pos) == ms[0] && ms[0].index == from
            && ReadEntries(data, pos + INDEX_ENTRY_LEN, from + 1, from + |ms|) == Some(ms[1..])
  {
    assert ms == [ms[0]] + ms[1..];
  }

  lemma {:induction false} NothingNumbered(data: seq<byte>, pos: nat, from: nat)
    requires pos <= |data|
    ensures Numbered([], from) && At(data, pos, EntriesBytes([]))
  {
  }

  lemma {:induction false} ReadEntriesIff(data: seq<byte>, pos: nat, from: nat, ms: seq<BlockMetadata>)
    requires pos <= |data|
    ensures ReadEntries(data, pos, from, from + |ms|) == Some(ms) <==>
            Numbered(ms, from) && At(data, pos, EntriesBytes(ms))
    decreases |ms|
  {
    hide At, ReadEntry, EntryBytes, Numbered;
    NothingNumbered(data, pos, from);
    if ms != [] {
      ReadEntriesCons(data, pos, from, ms);
      EntryAt(data, pos, ms[0]);
      AtConcat(data, pos, EntryBytes(ms[0]), EntriesBytes(ms[1..]));
      NumberedCons(ms, from);
      if pos + INDEX_ENTRY_LEN <= |data| {
        ReadEntriesIff(data, pos + INDEX_ENTRY_LEN, from + 1, ms[1..]);
      }
    }
  }

  /** Reading an index accepts exactly the bytes of a numbered list of at most MAX_STREAM_BLOCKS entries. */
  lemma {:induction false} ReadIndexIff(data: seq<byte>, pos: nat, ms: seq<BlockMetadata>)
    requires |data| < U64_LIMIT
    ensures At(data, pos, IndexMagic()) && ReadIndex(data, pos + 4) == Some(ms) <==>
            Numbered(ms, 0) && |ms| <= MAX_STREAM_BLOCKS && At(data, pos, IndexFooter(ms))
  {
    Pow256Values();
    AtConcat(data, pos, IndexMagic(), Le64(|ms|) + EntriesBytes(ms));
    AtConcat(data, pos + 4, Le64(|ms|), EntriesBytes(ms));
    if |ms| < U64_LIMIT {
      AtField(data, pos + 4, 8, |ms|);
    }
    if pos + 12 <= |data| {
      ReadEntriesIff(data, pos + 12, 0, ms);
    }
  }

  // ----- a stream of blocks -----

  function BlocksBytes(crc: Checksum, bs: seq<Block>): seq<byte> {
    if bs == [] then [] else BlockFrame(crc, bs[0]) + BlocksBytes(crc, bs[1..])
  }

  function StreamBytes(crc: Checksum, bs: seq<Block>): (d: seq<byte>)
    ensures |d| >= STREAM_HEADER_LEN
  {
    StreamHeader() + BlocksBytes(crc, bs)
  }

  function TotalRows(bs: seq<Block>): nat {
    if bs == [] then 0 else bs[0].rows + TotalRows(bs[1..])
  }

  function TotalRaw(bs: seq<Block>): nat {
    if bs == [] then 0 else bs[0].rawSize + TotalRaw(bs[1..])
  }

  /** Consecutive numbers, consecutive rows, every frame within the size limit. */
  ghost predicate Chain(bs: seq<Block>, index: nat, row: nat)
    decreases |bs|
  {
    bs == [] ||
    (&& bs[0].index == index && bs[0].firstRow == row
     && |BlockPayload(bs[0])| <= MAX_ENCODED_BLOCK_BYTES
     && row + bs[0].rows < U64_LIMIT
     && Chain(bs[1..], index + 1, row + bs[0].rows))
  }

  /** The metadata of consecutive blocks whose first frame starts at `offset`. */
  function Index(crc: Checksum, bs: seq<Block>, offset: nat): (ms: seq<BlockMetadata>)
    ensures |ms| == |bs|
    decreases |bs|
  {
    if bs == [] then []
    else [MetadataOf(crc, bs[0], offset)] + Index(crc, bs[1..], offset + |BlockFrame(crc, bs[0])|)
  }

  lemma {:induction false} BlocksAppend(crc: Checksum, a: seq<Block>, b: seq<Block>)
    ensures BlocksBytes(crc, a + b) == BlocksBytes(crc, a) + BlocksBytes(crc, b)
    ensures TotalRows(a + b) == TotalRows(a) + TotalRows(b)
    ensures TotalRaw(a + b) == TotalRaw(a) + TotalRaw(b)
    decreases |a|
  {
    hide BlockFrame;
    if a == [] {
      assert a + b == b;
    } else {
      assert (a + b)[1..] == a[1..] + b;
      BlocksAppend(crc, a[1..], b);
    }
  }

  lemma {:induction false} IndexAppend(crc: Checksum, a: seq<Block>, b: seq<Block>, offset: nat)
    ensures Index(crc, a + b, offset) == Index(crc, a, offset) + Index(crc, b, offset + |BlocksBytes(crc, a)|)
    decreases |a|
  {
    hide BlockFrame, MetadataOf;
    if a == [] {
      assert a + b == b;
    } else {
      assert (a + b)[1..] == a[1..] + b;
      IndexAppend(crc, a[1..], b, offset + |BlockFrame(crc, a[0])|);
    }
  }

  /** One more block at the end: what the loops that push to a vector build. */
  lemma {:induction false} BlocksSnoc(crc: Checksum, bs: seq<Block>, b: Block, offset: nat)
    ensures BlocksBytes(crc, bs + [b]) == BlocksBytes(crc, bs) + BlockFrame(crc, b)
    ensures Index(crc, bs + [b], offset) == Index(crc, bs, offset) + [MetadataOf(crc, b, offset + |BlocksBytes(crc, bs)|)]
  {
    hide BlockFrame, MetadataOf;
    BlocksAppend(crc, bs, [b]);
    IndexAppend(crc, bs, [b], offset);
    assert BlocksBytes(crc, [b]) == BlockFrame(crc, b) + [];
    assert Index(crc, [b], offset + |BlocksBytes(crc, bs)|) == [MetadataOf(crc, b, offset + |BlocksBytes(crc, bs)|)] + [];
  }

  lemma {:induction false} ChainAppend(a: seq<Block>, b: seq<Block>, index: nat, row: nat)
    ensures Chain(a + b, index, row) <==> Chain(a, index, row) && Chain(b, index + |a|, row + TotalRows(a))
    decreases |a|
  {
    hide BlockPayload;
    if a == [] {
      assert a + b == b;
    } else {
      assert (a + b)[1..] == a[1..] + b;
      ChainAppend(a[1..], b, index + 1, row + a[0].rows);
    }
  }

  lemma {:induction false} IndexNumbered(crc: Checksum, bs: seq<Block>, offset: nat, index: nat, row: nat)
    requires Chain(bs, index, row)
    ensures Numbered(Index(crc, bs, offset), index)
    decreases |bs|
  {
    if bs != [] {
      IndexNumbered(crc, bs[1..], offset + |BlockFrame(crc, bs[0])|, index + 1, row + bs[0].rows);
    }
  }

  lemma {:induction false} WholeStream(crc: Checksum, bs: seq<Block>)
    ensures |StreamBytes(crc, bs)| == STREAM_HEADER_LEN + |BlocksBytes(crc, bs)|
  {
  }

  lemma {:induction false} SplitAt(crc: Checksum, bs: seq<Block>, k: nat)
    requires k < |bs|
    ensures BlocksBytes(crc, bs) == BlocksBytes(crc, bs[..k]) + (BlockFrame(crc, bs[k]) + BlocksBytes(crc, bs[k + 1..]))
    ensures Index(crc, bs, STREAM_HEADER_LEN)[k] == MetadataOf(crc, bs[k], STREAM_HEADER_LEN + |BlocksBytes(crc, bs[..k])|)
  {
    hide BlockFrame, MetadataOf;
    var (front, rest) := (bs[..k], bs[k..]);
    assert bs == front + rest && rest[0] == bs[k] && rest[1..] == bs[k + 1..];
    BlocksAppend(crc, front, rest);
    IndexAppend(crc, front, rest, STREAM_HEADER_LEN);
  }

  lemma {:induction false} StreamCut(crc: Checksum, bs: seq<Block>, k: nat)
    requires k < |bs|
    ensures StreamBytes(crc, bs) == StreamBytes(crc, bs[..k]) + (BlockFrame(crc, bs[k]) + BlocksBytes(crc, bs[k + 1..]))
  {
    hide BlockFrame, BlocksBytes, StreamHeader, Index;
    SplitAt(crc, bs, k);
    Regroup(StreamHeader(), BlocksBytes(crc, bs[..k]), BlockFrame(crc, bs[k]) + BlocksBytes(crc, bs[k + 1..]));
  }

  lemma {:induction false} Regroup(a: seq<byte>, b: seq<byte>, c: seq<byte>)
    ensures a + (b + c) == (a + b) + c
  {
  }

  lemma {:induction false} FrameStands(crc: Checksum, bs: seq<Block>, k: nat)
    requires k < |bs|
    ensures At(StreamBytes(crc, bs), |StreamBytes(crc, bs[..k])|, BlockFrame(crc, bs[k]))
  {
    hide At, BlockFrame, BlocksBytes, StreamBytes;
    StreamCut(crc, bs, k);
    var (head, frame, behind) := (StreamBytes(crc, bs[..k]), BlockFrame(crc, bs[k]), BlocksBytes(crc, bs[k + 1..]));
    AtCovers(StreamBytes(crc, bs), head, frame + behind);
    AtConcat(StreamBytes(crc, bs), |head|, frame, behind);
  }

  /** The metadata of a block are its own counts and checksum, and say where in the stream its frame stands. */
  lemma {:induction false} IndexAt(crc: Checksum, bs: seq<Block>, k: nat)
    requires k < |bs| && |StreamBytes(crc, bs)| < U64_LIMIT
    ensures var m := Index(crc, bs, STREAM_HEADER_LEN)[k];
            && m.index == bs[k].index && m.rows == bs[k].rows && m.rawSize == bs[k].rawSize
            && m.checksum == crc(BlockPayload(bs[k]))
            && m.offset == |StreamBytes(crc, bs[..k])| && m.encodedSize == |BlockFrame(crc, bs[k])|
            && At(StreamBytes(crc, bs), m.offset, BlockFrame(crc, bs[k]))
  {
    SplitAt(crc, bs, k);
    FrameStands(crc, bs, k);
    AtInside(StreamBytes(crc, bs), |StreamBytes(crc, bs[..k])|, BlockFrame(crc, bs[k]));
    hide At, BlockFrame, BlocksBytes, StreamHeader, BlockPayload, Index;
    assert |StreamBytes(crc, bs[..k])| == STREAM_HEADER_LEN + |BlocksBytes(crc, bs[..k])|;
  }
}
