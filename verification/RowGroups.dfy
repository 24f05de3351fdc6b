/** CMP4 row groups in the body of a file (crates/compact-core/src/io/v4.rs). */
module RowGroups {
  import opened Wrappers
  import opened Bytes
  import opened Limits
  import opened Cmp4Format
  import opened Columns
  import ColumnFormat

  /** A row group: numbers of its header and one chunk of metadata and payload per column. */
  datatype RowGroup = RowGroup(index: nat, firstRow: nat, rowCount: nat, rawSize: nat, chunks: seq<Chunk>)

  const GROUP_HEADER_LEN: nat := 4 + 8 + 8 + 8 + 8 + 4
  const CHECKSUM_LEN: nat := 4

  function GroupMagic(): (m: seq<byte>) ensures |m| == 4 { Magic(0x52, 0x47, 0x42, 0x34) }

  /** The metadata of a chunk as bytes. */
  function Meta(c: Chunk): seq<byte> { ColumnFormat.Fields(c.metadata) }

  function ChunkBytes(c: Chunk): (b: seq<byte>)
    ensures |b| == 4 + |Meta(c)| + |c.payload|
  {
    ColumnFormat.Sized32(Meta(c)) + c.payload
  }

  function ChunksBytes(cs: seq<Chunk>): seq<byte> {
    if cs == [] then [] else ChunkBytes(cs[0]) + ChunksBytes(cs[1..])
  }

  function HeaderWords(g: RowGroup): seq<nat> { [g.index, g.firstRow, g.rowCount, g.rawSize] }

  /** Magic, four words and the number of columns. */
  function HeaderOf(words: seq<nat>, columns: nat): (h: seq<byte>)
    ensures |h| == 8 + 8 * |words|
  {
    GroupMagic() + (Words(words) + Le32(columns))
  }

  function GroupHeader(g: RowGroup): (h: seq<byte>)
    ensures |h| == GROUP_HEADER_LEN
  {
    HeaderOf(HeaderWords(g), |g.chunks|)
  }

  function GroupBody(g: RowGroup): seq<byte> { GroupHeader(g) + ChunksBytes(g.chunks) }

  function GroupFile(crc: Checksum, g: RowGroup): (b: seq<byte>)
    ensures |b| == |GroupBody(g)| + CHECKSUM_LEN
  {
    GroupBody(g) + Le32(crc(GroupBody(g)))
  }

  // ----- reading -----

  function Names(cs: seq<Chunk>): (names: seq<Text>)
    ensures |names| == |cs|
  {
    if cs == [] then [] else [cs[0].metadata.name] + Names(cs[1..])
  }

  /** What recovery checks of one column besides its bytes. */
  predicate ChunkOk(c: Chunk, rowCount: nat) {
    && ColumnFormat.Typed(c.metadata) && ColumnFormat.Encode(c.metadata).Some? && |Meta(c)| < U32_LIMIT
    && c.metadata.valueCount == rowCount && c.metadata.compressedSize == |c.payload|
    && DecodeStatistics(c.metadata.statistics).Some?
  }

  function ReadChunk(data: seq<byte>, pos: nat, rowCount: nat): (r: Option<(Chunk, nat)>)
    ensures r.Some? ==> pos <= r.value.1
  {
    match ColumnFormat.ReadSized32(data, pos)
    case None => None
    case Some((bytes, start)) =>
      match ColumnFormat.Decode(bytes)
      case None => None
      case Some(m) =>
        if m.valueCount != rowCount || DecodeStatistics(m.statistics).None? then None
        else if start + m.compressedSize > |data| then None
        else Some((Chunk(m, data[start..start + m.compressedSize]), start + m.compressedSize))
  }

  lemma {:induction false} ReadChunkIff(data: seq<byte>, pos: nat, rowCount: nat, c: Chunk, next: nat)
    ensures ReadChunk(data, pos, rowCount) == Some((c, next)) <==>
            ChunkOk(c, rowCount) && At(data, pos, ChunkBytes(c)) && next == pos + |ChunkBytes(c)|
  {
    hide At, ColumnFormat.ReadSized32, ColumnFormat.Sized32, ColumnFormat.Decode, ColumnFormat.Fields;
    hide ColumnFormat.Typed, DecodeStatistics;
    hide ColumnFormat.Valid;
    var start := pos + |ColumnFormat.Sized32(Meta(c))|;
    AtConcat(data, pos, ColumnFormat.Sized32(Meta(c)), c.payload);
    ColumnFormat.ReadSized32Iff(data, pos, Meta(c), start);
    ColumnFormat.DecodeIff(Meta(c), c.metadata);
    if ColumnFormat.ReadSized32(data, pos).Some? {
      var r := ColumnFormat.ReadSized32(data, pos).value;
      ColumnFormat.ReadSized32Iff(data, pos, r.0, r.1);
      ColumnFormat.DecodeIff(r.0, c.metadata);
    }
    AtSlice(data, start, c.payload);
  }

  /** The columns of a group; a name that is already taken ends it. */
  function ReadChunks(data: seq<byte>, pos: nat, count: nat, rowCount: nat, taken: seq<Text>)
    : (r: Option<(seq<Chunk>, nat)>)
    ensures r.Some? ==> pos <= r.value.1
    decreases count
  {
    if count == 0 then Some(([], pos))
    else
      match ReadChunk(data, pos, rowCount)
      case None => None
      case Some((c, next)) =>
        if c.metadata.name in taken then None
        else
          match ReadChunks(data, next, count - 1, rowCount, taken + [c.metadata.name])
          case None => None
          case Some((rest, end)) => Some(([c] + rest, end))
  }

  predicate ChunksOk(cs: seq<Chunk>, rowCount: nat, taken: seq<Text>)
    decreases |cs|
  {
    cs == [] ||
    (&& ChunkOk(cs[0], rowCount) && cs[0].metadata.name !in taken
     && ChunksOk(cs[1..], rowCount, taken + [cs[0].metadata.name]))
  }

  lemma {:induction false} ReadChunksIff(data: seq<byte>, pos: nat, rowCount: nat, taken: seq<Text>, cs: seq<Chunk>,
                                         end: nat)
    requires pos <= |data|
    ensures ReadChunks(data, pos, |cs|, rowCount, taken) == Some((cs, end)) <==>
            ChunksOk(cs, rowCount, taken) && At(data, pos, ChunksBytes(cs)) && end == pos + |ChunksBytes(cs)|
    decreases |cs|
  {
    hide At, ReadChunk, ChunkBytes, ChunkOk;
    if cs == [] {
      AtNothing(data, pos);
    } else {
      var first := ChunkBytes(cs[0]);
      AtConcat(data, pos, first, ChunksBytes(cs[1..]));
      ReadChunkIff(data, pos, rowCount, cs[0], pos + |first|);
      if ReadChunk(data, pos, rowCount).Some? {
        var r := ReadChunk(data, pos, rowCount).value;
        ReadChunkIff(data, pos, rowCount, r.0, r.1);
      }
      assert cs == [cs[0]] + cs[1..];
      if At(data, pos, first) {
        AtInside(data, pos, first);
        ReadChunksIff(data, pos + |first|, rowCount, taken + [cs[0].metadata.name], cs[1..], end);
      }
    }
  }

  lemma {:induction false} ReadChunksLen(data: seq<byte>, pos: nat, count: nat, rowCount: nat, taken: seq<Text>)
    ensures ReadChunks(data, pos, count, rowCount, taken).Some? ==> |ReadChunks(data, pos, count, rowCount, taken).value.0| == count
    decreases count
  {
    hide ReadChunk;
    if count > 0 && ReadChunk(data, pos, rowCount).Some? {
      var r := ReadChunk(data, pos, rowCount).value;
      ReadChunksLen(data, r.1, count - 1, rowCount, taken + [r.0.metadata.name]);
    }
  }

  lemma {:induction false} ChunksSize(cs: seq<Chunk>)
    ensures |ChunksBytes(cs)| >= 4 * |cs|
  {
    hide ChunkBytes;
    if cs != [] {
      ChunksSize(cs[1..]);
    }
  }

  predicate GroupOk(g: RowGroup) {
    && g.index < U64_LIMIT && g.firstRow < U64_LIMIT && 0 < g.rowCount < U64_LIMIT && g.rawSize < U64_LIMIT
    && |g.chunks| <= MAX_COLLECTION_ENTRIES && ChunksOk(g.chunks, g.rowCount, [])
  }

  /** The group at `pos` with the expected number and first row: what `recover_row_group` accepts. */
  function ReadGroup(crc: Checksum, data: seq<byte>, pos: nat, index: nat, firstRow: nat): Option<(RowGroup, nat)> {
    if pos + GROUP_HEADER_LEN > |data| || data[pos..pos + 4] != GroupMagic() then None
    else if Field(data, pos + 4, 8) != index || Field(data, pos + 12, 8) != firstRow then None
    else if Field(data, pos + 20, 8) == 0 then None
    else
      var rowCount, start := Field(data, pos + 20, 8), pos + GROUP_HEADER_LEN;
      var count := Field(data, pos + 36, 4);
      if count > MAX_COLLECTION_ENTRIES || count > (|data| - start) / 4 then None
      else
        match ReadChunks(data, start, count, rowCount, [])
        case None => None
        case Some((chunks, end)) =>
          if end + CHECKSUM_LEN > |data| then None
          else if crc(data[pos..end]) != Field(data, end, 4) then None
          else Some((RowGroup(index, firstRow, rowCount, Field(data, pos + 28, 8), chunks), end + CHECKSUM_LEN))
  }

  lemma {:induction false} HeaderAt(data: seq<byte>, pos: nat, words: seq<nat>, columns: nat)
    requires |words| == 4 && AllU64(words) && columns < U32_LIMIT
    ensures At(data, pos, HeaderOf(words, columns)) <==>
            && pos + GROUP_HEADER_LEN <= |data| && data[pos..pos + 4] == GroupMagic()
            && Field(data, pos + 4, 8) == words[0] && Field(data, pos + 12, 8) == words[1]
            && Field(data, pos + 20, 8) == words[2] && Field(data, pos + 28, 8) == words[3]
            && Field(data, pos + 36, 4) == columns
  {
    hide At, Field, Words, Le;
    Pow256Values();
    var (w, n) := (Words(words), Le32(columns));
    AtConcat(data, pos, GroupMagic(), w + n);
    AtConcat(data, pos + 4, w, n);
    AtSlice(data, pos, GroupMagic());
    AtWords(data, pos + 4, words);
    AtField(data, pos + 36, 4, columns);
  }

  lemma {:induction false} GroupHeaderAt(data: seq<byte>, pos: nat, g: RowGroup)
    requires g.index < U64_LIMIT && g.firstRow < U64_LIMIT && g.rowCount < U64_LIMIT && g.rawSize < U64_LIMIT && |g.chunks| < U32_LIMIT
    ensures At(data, pos, GroupHeader(g)) <==>
            && pos + GROUP_HEADER_LEN <= |data| && data[pos..pos + 4] == GroupMagic()
            && Field(data, pos + 4, 8) == g.index && Field(data, pos + 12, 8) == g.firstRow
            && Field(data, pos + 20, 8) == g.rowCount && Field(data, pos + 28, 8) == g.rawSize
            && Field(data, pos + 36, 4) == |g.chunks|
  {
    hide At, Field, HeaderOf;
    HeaderAt(data, pos, HeaderWords(g), |g.chunks|);
  }

  lemma {:induction false} ChecksumAt(crc: Checksum, data: seq<byte>, pos: nat, body: seq<byte>)
    requires At(data, pos, body)
    ensures At(data, pos, body + Le32(crc(body))) <==>
            pos + |body| + 4 <= |data| && Field(data, pos + |body|, 4) == crc(data[pos..pos + |body|])
  {
    Pow256Values();
    AtConcat(data, pos, body, Le32(crc(body)));
    AtField(data, pos + |body|, 4, crc(body));
  }

  /** A group is recovered from exactly its own bytes. */
  lemma {:induction false} ReadGroupIff(crc: Checksum, data: seq<byte>, pos: nat, g: RowGroup, next: nat)
    ensures ReadGroup(crc, data, pos, g.index, g.firstRow) == Some((g, next)) <==>
            GroupOk(g) && At(data, pos, GroupFile(crc, g)) && next == pos + |GroupFile(crc, g)|
  {
    hide At, Field, Words, Le, ReadChunks, ChunksBytes, ChunksOk, GroupHeader;
    Pow256Values();
    FieldBound(data, pos + 4, 8);
    FieldBound(data, pos + 12, 8);
    FieldBound(data, pos + 20, 8);
    FieldBound(data, pos + 28, 8);
    FieldBound(data, pos + 36, 4);
    var start := pos + GROUP_HEADER_LEN;
    var body := GroupBody(g);
    AtConcat(data, pos, body, Le32(crc(body)));
    AtConcat(data, pos, GroupHeader(g), ChunksBytes(g.chunks));
    ChunksSize(g.chunks);
    if start <= |data| {
      ReadChunksIff(data, start, g.rowCount, [], g.chunks, start + |ChunksBytes(g.chunks)|);
      ReadChunksLen(data, start, Field(data, pos + 36, 4), Field(data, pos + 20, 8), []);
      if ReadChunks(data, start, |g.chunks|, g.rowCount, []).Some? {
        var r := ReadChunks(data, start, |g.chunks|, g.rowCount, []).value;
        ReadChunksIff(data, start, g.rowCount, [], r.0, r.1);
      }
    }
    if g.index < U64_LIMIT && g.firstRow < U64_LIMIT && g.rowCount < U64_LIMIT && g.rawSize < U64_LIMIT && |g.chunks| < U32_LIMIT {
      GroupHeaderAt(data, pos, g);
    }
    if At(data, pos, body) {
      ChecksumAt(crc, data, pos, body);
      AtInside(data, pos, body);
    }
  }

  // ----- the index entry -----

  function EntriesOf(cs: seq<Chunk>, pos: nat): (es: seq<ColumnEntry>)
    ensures |es| == |cs|
  {
    if cs == [] then []
    else
      var (m, meta) := (cs[0].metadata, pos + 4);
      [ColumnEntry(m.name, meta, |Meta(cs[0])|, meta + |Meta(cs[0])|, m.compressedSize, m.valueCount, m.nullCount, m.statistics)]
      + EntriesOf(cs[1..], pos + |ChunkBytes(cs[0])|)
  }

  /** The footer entry of a group that stands at `offset`. */
  function EntryOf(g: RowGroup, offset: nat): GroupEntry {
    GroupEntry(g.index, g.firstRow, g.rowCount, offset, |GroupBody(g)| + CHECKSUM_LEN, EntriesOf(g.chunks, offset + GROUP_HEADER_LEN))
  }
}
