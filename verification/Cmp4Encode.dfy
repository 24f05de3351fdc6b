/** Writing CMP4 files (crates/compact-core/src/io/v4.rs, `encode_jsonl`), and that they lose nothing. */
module Cmp4Encode {
  import opened Wrappers
  import opened Bytes
  import opened Limits
  import opened Cmp4Format
  import opened RowGroups
  import opened Columns
  import opened ColumnSelect
  import opened Cmp4Recovery
  import opened Cmp4Validate
  import opened Cmp4Scan
  import ColumnFormat
  import Strings
  import Utf8

  // ----- one group -----

  /** One column of a row group: collected, encoded, and with metadata that can be written. */
  function EncodeChunk(c: ColumnSchema, rows: seq<Row>): Option<Chunk> {
    match Collect(c, rows)
    case None => None
    case Some(column) =>
      match ColumnSelect.Encode(c, column)
      case None => None
      case Some(chunk) =>
        match ColumnFormat.Encode(chunk.metadata)
        case None => None
        case Some(meta) => if |meta| >= U32_LIMIT then None else Some(chunk)
  }

  function EncodeChunks(columns: seq<ColumnSchema>, rows: seq<Row>): Option<seq<Chunk>> {
    if columns == [] then Some([])
    else
      match EncodeChunk(columns[0], rows)
      case None => None
      case Some(chunk) => match EncodeChunks(columns[1..], rows) case None => None case Some(rest) => Some([chunk] + rest)
  }

  function EncodeGroup(columns: seq<ColumnSchema>, index: nat, firstRow: nat, rows: seq<Row>): Option<RowGroup> {
    match EncodeChunks(columns, rows)
    case None => None
    case Some(chunks) => Some(RowGroup(index, firstRow, |rows|, 0, chunks))
  }

  /** The rows of the next chunk. */
  function ChunkLen(rows: seq<Row>, size: nat): (n: nat)
    ensures n <= |rows| && n <= size && (n == |rows| || n == size)
  {
    if |rows| < size then |rows| else size
  }

  function FirstRow(index: nat, size: nat): nat { index * size }

  /** The groups of at most `size` rows, from group `index` on. */
  function EncodeGroups(columns: seq<ColumnSchema>, rows: seq<Row>, size: nat, index: nat): Option<seq<RowGroup>>
    requires size > 0
    decreases |rows|
  {
    if rows == [] then Some([])
    else
      var n := ChunkLen(rows, size);
      match EncodeGroup(columns, index, FirstRow(index, size), rows[..n])
      case None => None
      case Some(g) =>
        match EncodeGroups(columns, rows[n..], size, index + 1) case None => None case Some(rest) => Some([g] + rest)
  }

  /** `encode_jsonl` on parsed rows. */
  function EncodeFile(crc: Checksum, columns: seq<ColumnSchema>, rows: seq<Row>, size: nat): Option<seq<byte>> {
    if size == 0 || !SchemaOk(columns) || |columns| >= U32_LIMIT then None
    else
      match EncodeGroups(columns, rows, size, 0)
      case None => None
      case Some(gs) => AppendFooter(crc, HeaderBytes() + BodyOf(crc, gs), Footer(|rows|, EntriesAll(gs, HEADER_LEN)))
  }

  // ----- what the types of the source guarantee, and the limits of the decoders -----

  predicate JsonTyped(j: Json) {
    match j case Number(n) => n < U64_LIMIT case String(t) => Utf8.Valid(t) && |t| < U64_LIMIT case _ => true
  }

  ghost predicate RowsTyped(rows: seq<Row>) {
    forall k, name :: 0 <= k < |rows| && name in rows[k] ==> JsonTyped(rows[k][name])
  }

  lemma {:induction false} TypedParts(rows: seq<Row>, n: nat)
    requires RowsTyped(rows) && n <= |rows|
    ensures RowsTyped(rows[..n]) && RowsTyped(rows[n..])
  {
    hide JsonTyped;
    forall k, name | 0 <= k < |rows| - n && name in rows[n..][k] ensures JsonTyped(rows[n..][k][name]) {
      assert rows[n..][k] == rows[n + k];
    }
  }

  /** The decoders' limits on one row group, for the codecs its columns got. */
  ghost predicate GroupWithinLimits(columns: seq<ColumnSchema>, rows: seq<Row>) {
    forall c :: c in columns && EncodeChunk(c, rows).Some? ==>
      WithinDecoderLimits(EncodeChunk(c, rows).value.metadata.codec, Collect(c, rows).value)
  }

  ghost predicate WithinLimits(columns: seq<ColumnSchema>, rows: seq<Row>, size: nat)
    requires size > 0
    decreases |rows|
  {
    rows == [] ||
    (&& GroupWithinLimits(columns, rows[..ChunkLen(rows, size)])
     && WithinLimits(columns, rows[ChunkLen(rows, size)..], size))
  }

  // ----- chunks are well formed and decode -----

  lemma {:induction false} PresentFrom<T>(cells: seq<Option<T>>, i: nat)
    requires i < |Present(cells)|
    ensures exists k :: 0 <= k < |cells| && cells[k] == Some(Present(cells)[i])
    decreases |cells|
  {
    if cells[0].Some? {
      if i > 0 {
        PresentFrom(cells[1..], i - 1);
        var k :| 0 <= k < |cells[1..]| && cells[1..][k] == Some(Present(cells[1..])[i - 1]);
        assert cells[k + 1] == Some(Present(cells)[i]);
      } else {
        assert cells[0] == Some(Present(cells)[0]);
      }
    } else {
      PresentFrom(cells[1..], i);
      var k :| 0 <= k < |cells[1..]| && cells[1..][k] == Some(Present(cells[1..])[i]);
      assert cells[k + 1] == Some(Present(cells)[i]);
    }
  }

  /** The rows behind a collected cell. */
  lemma {:induction false} ShownTyped(c: ColumnSchema, rows: seq<Row>, k: nat)
    requires Collect(c, rows).Some? && RowsTyped(rows) && k < |rows|
    ensures Collect(c, rows).value.Rows() == |rows| && JsonTyped(ValueAt(Collect(c, rows).value, k))
  {
    hide Collect, Utf8.Valid;
    CollectShows(c, rows, k);
    var row := rows[k];
    if c.name in row {
      assert JsonTyped(row[c.name]);
    }
  }

  lemma {:induction false} NumbersTyped(c: ColumnSchema, rows: seq<Row>, column: Column)
    requires Collect(c, rows) == Some(column) && RowsTyped(rows) && column.Numbers?
    ensures AllU64(Present(column.numbers))
  {
    hide Collect, RowsTyped, Present;
    CollectShows(c, rows, 0);
    var values: seq<nat> := Present<nat>(column.numbers);
    forall i | 0 <= i < |values| ensures values[i] < U64_LIMIT {
      PresentFrom<nat>(column.numbers, i);
      var k :| 0 <= k < |column.numbers| && column.numbers[k] == Some(values[i]);
      ShownTyped(c, rows, k);
    }
  }

  lemma {:induction false} TextsTyped(c: ColumnSchema, rows: seq<Row>, column: Column)
    requires Collect(c, rows) == Some(column) && RowsTyped(rows) && column.Texts?
    ensures TextsOk(Present(column.texts))
  {
    hide Collect, RowsTyped, Present, Utf8.Valid;
    CollectShows(c, rows, 0);
    forall i | 0 <= i < |Present(column.texts)|
      ensures |Present(column.texts)[i]| < U64_LIMIT && Utf8.Valid(Present(column.texts)[i])
    {
      PresentFrom(column.texts, i);
      var k :| 0 <= k < |column.texts| && column.texts[k] == Some(Present(column.texts)[i]);
      ShownTyped(c, rows, k);
    }
  }

  lemma {:induction false} AllTrueCounts(bits: seq<bool>)
    requires forall k :: 0 <= k < |bits| ==> bits[k]
    ensures CountTrue(bits) == |bits|
  {
    if bits != [] {
      AllTrueCounts(bits[1..]);
    }
  }

  /** A collected column can be stored: it is typed, and null only where the schema allows it. */
  lemma {:induction false} CollectedStorable(c: ColumnSchema, rows: seq<Row>)
    requires Collect(c, rows).Some? && |rows| < U64_LIMIT && RowsTyped(rows)
    ensures Storable(c, Collect(c, rows).value) && Collect(c, rows).value.Rows() == |rows|
  {
    hide Collect, RowsTyped, Present, TextsOk, CountTrue, AllU64;
    var column := Collect(c, rows).value;
    CollectShows(c, rows, 0);
    if !c.nullable {
      forall k | 0 <= k < |column.Validity()| ensures column.Validity()[k] {
        CollectShows(c, rows, k);
      }
      AllTrueCounts(column.Validity());
    }
    if column.Numbers? {
      NumbersTyped(c, rows, column);
    } else if column.Texts? {
      TextsTyped(c, rows, column);
    }
  }

  /** The chunk of a column is well formed, belongs to it, and decodes to it exactly within the decoders' limits. */
  lemma {:induction false} ChunkIsGood(c: ColumnSchema, rows: seq<Row>)
    requires EncodeChunk(c, rows).Some? && Utf8.Valid(c.name) && |rows| < U64_LIMIT && RowsTyped(rows)
    requires |EncodeChunk(c, rows).value.payload| < U64_LIMIT
    ensures var chunk := EncodeChunk(c, rows).value;
            && ChunkOk(chunk, |rows|)
            && SchemaMatches(chunk.metadata, c, |rows|)
            && DecodeColumn(chunk.metadata, chunk.payload)
               == if WithinDecoderLimits(chunk.metadata.codec, Collect(c, rows).value) then Collect(c, rows) else None
  {
    hide Collect, RowsTyped, Storable, ColumnSelect.Encode, DecodeColumn, ColumnFormat.Fields, ColumnFormat.Valid;
    hide Utf8.Valid;
    hide DecodeStatistics, StatisticsBytes, StatisticsOf, StatisticsOk, WithinDecoderLimits;
    CollectedStorable(c, rows);
    var column := Collect(c, rows).value;
    var chunk := EncodeChunk(c, rows).value;
    EncodedRoundTrip(c, column);
    StatisticsInRange(c, column);
    StatisticsRoundTrip(StatisticsOf(column));
    RawSizeFits(c, column);
    ValidCounts(chunk.metadata);
  }

  lemma {:induction false} ValidCounts(m: ColumnMetadata)
    requires ColumnFormat.Encode(m).Some?
    ensures m.nullCount <= m.valueCount
  {
    hide ColumnFormat.Fields;
  }

  /** Raw sizes are 64-bit counts. */
  lemma {:induction false} RawSizeFits(c: ColumnSchema, column: Column)
    requires ColumnSelect.Encode(c, column).Some? && column.Rows() < U64_LIMIT
    ensures ColumnSelect.Encode(c, column).value.metadata.rawSize < U64_LIMIT
  {
    hide EncodeValues, StatisticsOf, CountTrue, Select;
    var chunk := ColumnSelect.Encode(c, column).value;
    var codec := c.codec;
    if c.codec == Auto {
      SelectIsTried(c, column, Candidates(c.valueType), None);
      codec :| Try(c, column, codec) == Some(chunk);
    }
    assert EncodeColumn(c.(codec := codec), column) == Some(chunk);
    ValuesRawSize(codec, column);
  }

  lemma {:induction false} ValuesRawSize(codec: Codec, column: Column)
    requires EncodeValues(codec, column).Some? && column.Rows() < U64_LIMIT
    ensures EncodeValues(codec, column).value.rawSize < U64_LIMIT
  {
    hide Present, Strings.RawSize;
    CountBound(column);
  }

  // ----- groups -----

  ghost predicate NamesOk(columns: seq<ColumnSchema>) {
    forall k :: 0 <= k < |columns| ==> Utf8.Valid(columns[k].name)
  }

  lemma {:induction false} ChunksAreGood(columns: seq<ColumnSchema>, rows: seq<Row>, taken: seq<Text>)
    requires EncodeChunks(columns, rows).Some? && NamesOk(columns) && |rows| < U64_LIMIT && RowsTyped(rows)
    requires forall i, j :: 0 <= i < j < |columns| ==> columns[i].name != columns[j].name
    requires forall k :: 0 <= k < |columns| ==> columns[k].name !in taken
    requires |ChunksBytes(EncodeChunks(columns, rows).value)| < U64_LIMIT
    ensures ChunksOk(EncodeChunks(columns, rows).value, |rows|, taken) && |EncodeChunks(columns, rows).value| == |columns|
    decreases |columns|
  {
    hide EncodeChunk, ChunkOk, RowsTyped, Utf8.Valid;
    if columns != [] {
      var chunks := EncodeChunks(columns, rows).value;
      ChunkIsGood(columns[0], rows);
      assert chunks[1..] == EncodeChunks(columns[1..], rows).value;
      ChunksAreGood(columns[1..], rows, taken + [columns[0].name]);
    }
  }

  lemma {:induction false} GroupIsGood(columns: seq<ColumnSchema>, index: nat, firstRow: nat, rows: seq<Row>)
    requires SchemaOk(columns) && NamesOk(columns) && |columns| <= MAX_COLLECTION_ENTRIES
    requires EncodeGroup(columns, index, firstRow, rows).Some? && rows != [] && |rows| < U64_LIMIT && RowsTyped(rows)
    requires index < U64_LIMIT && firstRow < U64_LIMIT
    requires |GroupBody(EncodeGroup(columns, index, firstRow, rows).value)| < U64_LIMIT
    ensures GroupOk(EncodeGroup(columns, index, firstRow, rows).value)
  {
    hide EncodeChunks, ChunksOk, ChunksBytes, NamesOk, Implemented, RowsTyped;
    ChunksAreGood(columns, rows, []);
  }

  lemma {:induction false} GroupsAreGood(crc: Checksum, columns: seq<ColumnSchema>, rows: seq<Row>, size: nat,
                                         index: nat)
    requires SchemaOk(columns) && NamesOk(columns) && |columns| <= MAX_COLLECTION_ENTRIES && size > 0
    requires EncodeGroups(columns, rows, size, index).Some? && RowsTyped(rows)
    requires FirstRow(index, size) + |rows| < U64_LIMIT && |BodyOf(crc, EncodeGroups(columns, rows, size, index).value)| < U64_LIMIT
    ensures AllOk(EncodeGroups(columns, rows, size, index).value)
    ensures Numbered(EncodeGroups(columns, rows, size, index).value, index, FirstRow(index, size))
    ensures RowsOf(EncodeGroups(columns, rows, size, index).value) == |rows|
    decreases |rows|
  {
    hide SchemaOk, NamesOk, EncodeGroup, RowsTyped, GroupOk, GroupBody, FirstRow, ChunkLen;
    if rows != [] {
      var n := ChunkLen(rows, size);
      var gs := EncodeGroups(columns, rows, size, index).value;
      IndexBelow(index, size, |rows|);
      TypedParts(rows, n);
      GroupIsGood(columns, index, FirstRow(index, size), rows[..n]);
      GroupNumbers(columns, index, FirstRow(index, size), rows[..n]);
      NextIndex(index, size);
      if |rows| > size {
        GroupsAreGood(crc, columns, rows[n..], size, index + 1);
      } else {
        assert rows[n..] == [];
      }
    }
  }

  lemma IndexBelow(index: nat, size: nat, rows: nat)
    requires size > 0 && rows > 0 && FirstRow(index, size) + rows < U64_LIMIT
    ensures index < U64_LIMIT && FirstRow(index, size) < U64_LIMIT
  {
    assert index <= index * size;
  }

  lemma NextIndex(index: nat, size: nat)
    ensures FirstRow(index + 1, size) == FirstRow(index, size) + size
  {
    assert (index + 1) * size == index * size + size;
  }

  lemma {:induction false} GroupNumbers(columns: seq<ColumnSchema>, index: nat, firstRow: nat, rows: seq<Row>)
    requires EncodeGroup(columns, index, firstRow, rows).Some?
    ensures var g := EncodeGroup(columns, index, firstRow, rows).value;
            g.index == index && g.firstRow == firstRow && g.rowCount == |rows|
  {
  }

  /** A written file is the file of its groups, so it validates and every cut of it is recovered. */
  lemma {:induction false} EncodedIsFile(crc: Checksum, columns: seq<ColumnSchema>, rows: seq<Row>, size: nat)
    requires size > 0 && EncodeFile(crc, columns, rows, size).Some? && |EncodeFile(crc, columns, rows, size).value| < U64_LIMIT
    requires NamesOk(columns) && |columns| <= MAX_COLLECTION_ENTRIES && RowsTyped(rows) && |rows| < U64_LIMIT
    ensures EncodeGroups(columns, rows, size, 0).Some?
    ensures FileOf(crc, EncodeGroups(columns, rows, size, 0).value, EncodeFile(crc, columns, rows, size).value)
  {
    hide SchemaOk, NamesOk, AllOk, Numbered, BodyOf, RowsOf, IndexValid, Encodable, FooterBody, RowsTyped, EntriesAll;
    var gs := EncodeGroups(columns, rows, size, 0).value;
    AppendedLonger(crc, HeaderBytes() + BodyOf(crc, gs), Footer(|rows|, EntriesAll(gs, HEADER_LEN)));
    assert FirstRow(0, size) == 0 by { assert 0 * size == 0; }
    GroupsAreGood(crc, columns, rows, size, 0);
  }

  // ----- reading back -----

  /** What the canonical output shows of a row: every column of the schema, null where the field is missing. */
  function Rendering(columns: seq<ColumnSchema>, row: Row): (r: Rendered)
    ensures |r| == |columns|
  {
    seq(|columns|, k requires 0 <= k < |columns| => (columns[k].name, Shown(columns[k].name, row)))
  }

  function RenderingAll(columns: seq<ColumnSchema>, rows: seq<Row>): (r: seq<Rendered>)
    ensures |r| == |rows|
  {
    seq(|rows|, k requires 0 <= k < |rows| => Rendering(columns, rows[k]))
  }

  /** Row by row and column by column: the field of that name, or null where it is missing. */
  ghost predicate ShowsRows(shown: seq<Rendered>, columns: seq<ColumnSchema>, rows: seq<Row>) {
    && |shown| == |rows|
    && forall k :: 0 <= k < |rows| ==>
         && |shown[k]| == |columns|
         && forall j :: 0 <= j < |columns| ==>
              var name := columns[j].name;
              shown[k][j] == (name, if name in rows[k] then rows[k][name] else Null)
  }

  lemma {:induction false} RenderingShows(columns: seq<ColumnSchema>, rows: seq<Row>)
    ensures ShowsRows(RenderingAll(columns, rows), columns, rows)
  {
  }

  lemma {:induction false} EncodeChunksAt(columns: seq<ColumnSchema>, rows: seq<Row>, k: nat)
    requires EncodeChunks(columns, rows).Some? && k < |columns|
    ensures |EncodeChunks(columns, rows).value| == |columns|
    ensures EncodeChunk(columns[k], rows) == Some(EncodeChunks(columns, rows).value[k])
    decreases |columns|
  {
    hide EncodeChunk;
    if |columns| > 1 {
      EncodeChunksAt(columns[1..], rows, if k > 0 then k - 1 else 0);
    } else {
      assert columns[1..] == [];
    }
  }

  /** The parts of chunk `k` stand where its entry says. */
  lemma {:induction false} EntryPartsAt(data: seq<byte>, pos: nat, cs: seq<Chunk>, k: nat)
    requires At(data, pos, ChunksBytes(cs)) && k < |cs|
    ensures At(data, EntriesOf(cs, pos)[k].metadataOffset, Meta(cs[k]))
    ensures At(data, EntriesOf(cs, pos)[k].payloadOffset, cs[k].payload)
    decreases |cs|
  {
    hide At, Meta, Le;
    AtConcat(data, pos, ChunkBytes(cs[0]), ChunksBytes(cs[1..]));
    if k > 0 {
      EntryPartsAt(data, pos + |ChunkBytes(cs[0])|, cs[1..], k - 1);
    } else {
      AtConcat(data, pos, ColumnFormat.Sized32(Meta(cs[0])), cs[0].payload);
      AtConcat(data, pos, Le32(|Meta(cs[0])|), Meta(cs[0]));
    }
  }

  lemma {:induction false} FindEntryAt(es: seq<ColumnEntry>, k: nat)
    requires k < |es| && forall j :: 0 <= j < k ==> es[j].name != es[k].name
    ensures FindEntry(es, es[k].name) == Some(es[k])
    decreases |es|
  {
    if k > 0 {
      FindEntryAt(es[1..], k - 1);
    }
  }

  /** The footer entry of an encoded column leads back to the collected column, exactly within the decoders' limits. */
  lemma {:induction false} ColumnReadsBack(crc: Checksum, data: seq<byte>, columns: seq<ColumnSchema>, g: RowGroup,
                                           rows: seq<Row>, pos: nat, k: nat)
    requires EncodeGroup(columns, g.index, g.firstRow, rows) == Some(g) && k < |columns|
    requires SchemaOk(columns) && NamesOk(columns) && RowsTyped(rows) && |rows| < U64_LIMIT
    requires |data| < U64_LIMIT && GroupOk(g) && At(data, pos + GROUP_HEADER_LEN, ChunksBytes(g.chunks))
    ensures EncodeChunk(columns[k], rows).Some? && Collect(columns[k], rows).Some?
    ensures var codec := EncodeChunk(columns[k], rows).value.metadata.codec;
            DecodeOf(data, EntryOf(g, pos), columns[k])
            == if WithinDecoderLimits(codec, Collect(columns[k], rows).value) then Collect(columns[k], rows) else None
  {
    hide At, EncodeChunk, Collect, Meta, ChunksOk, ChunksBytes, ChunkOk, RowsTyped, Utf8.Valid, WithinDecoderLimits;
    hide EntriesOf, DecodeColumn;
    hide ColumnFormat.Decode, Implemented, EncodeChunks, SchemaMatches;
    EncodeChunksAt(columns, rows, k);
    var (c, start, chunk) := (columns[k], pos + GROUP_HEADER_LEN, g.chunks[k]);
    ChunksOkAt(g.chunks, g.rowCount, [], k);
    ChunkOkFacts(chunk, g.rowCount);
    EntriesAt(g.chunks, start, k);
    EntryPartsAt(data, start, g.chunks, k);
    var e := EntriesOf(g.chunks, start)[k];
    EncodedChunkCollected(c, rows);
    AtInside(data, e.payloadOffset, chunk.payload);
    assert c in columns;
    ChunkIsGood(c, rows);
    SchemaNames(chunk.metadata, c, |rows|);
    EntryFound(g.chunks, g.rowCount, start, k);
    EntryDecodes(data, EntryOf(g, pos), e, c, chunk);
  }

  lemma {:induction false} EncodedChunkCollected(c: ColumnSchema, rows: seq<Row>)
    requires EncodeChunk(c, rows).Some?
    ensures Collect(c, rows).Some?
  {
  }

  lemma {:induction false} SchemaNames(m: ColumnMetadata, c: ColumnSchema, rowCount: nat)
    requires SchemaMatches(m, c, rowCount)
    ensures m.name == c.name
  {
  }

  lemma {:induction false} EntryFound(cs: seq<Chunk>, rowCount: nat, start: nat, k: nat)
    requires ChunksOk(cs, rowCount, []) && k < |cs|
    ensures FindEntry(EntriesOf(cs, start), cs[k].metadata.name) == Some(EntriesOf(cs, start)[k])
  {
    hide ChunksOk, EntriesOf, FindEntry;
    var es := EntriesOf(cs, start);
    EntriesAt(cs, start, k);
    forall j | 0 <= j < k ensures es[j].name != es[k].name {
      EntriesAt(cs, start, j);
      ChunksOkAt(cs, rowCount, [], j);
    }
    FindEntryAt(es, k);
  }

  lemma {:induction false} EntryDecodes(data: seq<byte>, g: GroupEntry, e: ColumnEntry, c: ColumnSchema, chunk: Chunk)
    requires ChunkOk(chunk, g.rowCount) && SchemaMatches(chunk.metadata, c, g.rowCount)
    requires At(data, e.metadataOffset, Meta(chunk)) && At(data, e.payloadOffset, chunk.payload)
    requires e.name == chunk.metadata.name && e.statistics == chunk.metadata.statistics
    requires e.valueCount == chunk.metadata.valueCount && e.nullCount == chunk.metadata.nullCount
    requires e.metadataLen == |Meta(chunk)| && e.payloadLen == chunk.metadata.compressedSize
    ensures chunk.metadata.nullCount <= chunk.metadata.valueCount
    ensures DecodeEntry(data, g, e, c) == DecodeColumn(chunk.metadata, chunk.payload)
  {
    hide DecodeColumn, ColumnFormat.Decode, ColumnFormat.Fields, DecodeStatistics, SchemaMatches, Utf8.Valid;
    ColumnFormat.DecodeIff(Meta(chunk), chunk.metadata);
  }

  /** A group of the file, scanned in full, shows the rows it was made from, exactly within the decoders' limits. */
  lemma {:induction false} GroupReadsBack(crc: Checksum, data: seq<byte>, columns: seq<ColumnSchema>, g: RowGroup,
                                          rows: seq<Row>, pos: nat)
    requires EncodeGroup(columns, g.index, g.firstRow, rows) == Some(g) && rows != []
    requires SchemaOk(columns) && NamesOk(columns) && RowsTyped(rows) && |rows| < U64_LIMIT
    requires |data| < U64_LIMIT && GroupOk(g) && At(data, pos, GroupFile(crc, g))
    ensures ScanGroup(crc, data, EntryOf(g, pos), columns, columns, None)
         == if GroupWithinLimits(columns, rows) then Some(RenderingAll(columns, rows)) else None
  {
    hide RowsTyped, At, Collect, ChunksOk, ChunksBytes, DecodeOf, SchemaOk, NamesOk, EncodeGroup, EncodeChunk;
    hide EntriesOf, GroupHeader;
    hide WithinDecoderLimits, VerifyGroup, GroupRows, FilterProject, GroupOk, ScanGroup, PredicateOk, RenderingAll;
    var entry := EntryOf(g, pos);
    AtConcat(data, pos, GroupBody(g), Le32(crc(GroupBody(g))));
    AtConcat(data, pos, GroupHeader(g), ChunksBytes(g.chunks));
    if GroupWithinLimits(columns, rows) {
      VerifiesOwnGroup(crc, data, g, pos);
      GroupDecodable(crc, data, columns, g, rows, pos);
      SchemaNonEmpty(columns);
      ScanGroupIs(crc, data, entry, columns, columns, None);
      FullProjection(data, entry, columns, g.rowCount);
      GroupRowsShown(crc, data, columns, g, rows, pos);
    } else if ScanGroup(crc, data, entry, columns, columns, None).Some? {
      FullScanDecodes(crc, data, entry, columns);
      GroupDecodable(crc, data, columns, g, rows, pos);
    }
  }

  lemma {:induction false} GroupDecodable(crc: Checksum, data: seq<byte>, columns: seq<ColumnSchema>, g: RowGroup,
                                          rows: seq<Row>, pos: nat)
    requires EncodeGroup(columns, g.index, g.firstRow, rows) == Some(g)
    requires SchemaOk(columns) && NamesOk(columns) && RowsTyped(rows) && |rows| < U64_LIMIT
    requires |data| < U64_LIMIT && GroupOk(g) && At(data, pos + GROUP_HEADER_LEN, ChunksBytes(g.chunks))
    ensures Decodable(data, EntryOf(g, pos), columns) <==> GroupWithinLimits(columns, rows)
  {
    hide RowsTyped, At, Collect, ColumnSelect.Encode, ColumnFormat.Encode, ChunksOk, ChunksBytes, DecodeOf, SchemaOk;
    hide NamesOk, EncodeGroup;
    hide EntriesOf, GroupOk, WithinDecoderLimits;
    var entry := EntryOf(g, pos);
    GroupNumbers(columns, g.index, g.firstRow, rows);
    if GroupWithinLimits(columns, rows) {
      forall c | c in columns ensures DecodeOf(data, entry, c).Some? && DecodeOf(data, entry, c).value.Rows() == g.rowCount {
        var k :| 0 <= k < |columns| && columns[k] == c;
        ColumnReadsBack(crc, data, columns, g, rows, pos, k);
        DecodedRows(data, entry, c);
      }
    }
    if Decodable(data, entry, columns) {
      forall c | c in columns && EncodeChunk(c, rows).Some?
        ensures WithinDecoderLimits(EncodeChunk(c, rows).value.metadata.codec, Collect(c, rows).value)
      {
        var k :| 0 <= k < |columns| && columns[k] == c;
        ColumnReadsBack(crc, data, columns, g, rows, pos, k);
      }
    }
  }

  lemma {:induction false} GroupRowsShown(crc: Checksum, data: seq<byte>, columns: seq<ColumnSchema>, g: RowGroup,
                                          rows: seq<Row>, pos: nat)
    requires EncodeGroup(columns, g.index, g.firstRow, rows) == Some(g)
    requires SchemaOk(columns) && NamesOk(columns) && GroupWithinLimits(columns, rows) && RowsTyped(rows) && |rows| < U64_LIMIT
    requires |data| < U64_LIMIT && GroupOk(g) && At(data, pos + GROUP_HEADER_LEN, ChunksBytes(g.chunks))
    requires Decodable(data, EntryOf(g, pos), columns)
    ensures GroupRows(data, EntryOf(g, pos), columns, g.rowCount) == RenderingAll(columns, rows)
  {
    hide RowsTyped, At, Collect, ChunksOk, ChunksBytes, GroupWithinLimits, DecodeOf, SchemaOk, NamesOk, EncodeGroup;
    hide EntriesOf, GroupOk;
    var entry := EntryOf(g, pos);
    GroupNumbers(columns, g.index, g.firstRow, rows);
    forall k | 0 <= k < |rows| ensures FullRow(data, entry, columns, k) == Rendering(columns, rows[k]) {
      var (shown, want) := (FullRow(data, entry, columns, k), Rendering(columns, rows[k]));
      forall i | 0 <= i < |columns| ensures shown[i] == want[i] {
        ColumnReadsBack(crc, data, columns, g, rows, pos, i);
        CollectShows(columns[i], rows, k);
      }
    }
  }

  /** The groups of the file, scanned in full. */
  lemma {:induction false} GroupsReadBack(crc: Checksum, data: seq<byte>, columns: seq<ColumnSchema>, rows: seq<Row>,
                                          size: nat,
                                          index: nat, gs: seq<RowGroup>, pos: nat)
    requires SchemaOk(columns) && NamesOk(columns) && size > 0 && RowsTyped(rows) && |rows| < U64_LIMIT
    requires EncodeGroups(columns, rows, size, index) == Some(gs) && AllOk(gs)
    requires |data| < U64_LIMIT && At(data, pos, BodyOf(crc, gs))
    ensures ScanGroups(crc, data, EntriesAll(gs, pos), columns, columns, None)
         == if WithinLimits(columns, rows, size) then Some(ScanResult(RenderingAll(columns, rows), |gs|, 0)) else None
    decreases |rows|
  {
    hide RowsTyped, At, SchemaOk, NamesOk, EncodeGroup, GroupWithinLimits, GroupOk, GroupBody, EntryOf, FirstRow;
    hide ChunkLen, ScanGroup, MayMatch, Rendering;
    if rows != [] {
      var n := ChunkLen(rows, size);
      ChunkLenPositive(rows, size);
      TypedParts(rows, n);
      GroupNumbers(columns, index, FirstRow(index, size), rows[..n]);
      AtConcat(data, pos, GroupFile(crc, gs[0]), BodyOf(crc, gs[1..]));
      GroupReadsBack(crc, data, columns, gs[0], rows[..n], pos);
      var next := pos + |GroupFile(crc, gs[0])|;
      GroupsReadBack(crc, data, columns, rows[n..], size, index + 1, gs[1..], next);
      var entries := EntriesAll(gs, pos);
      assert entries[0] == EntryOf(gs[0], pos) && entries[1..] == EntriesAll(gs[1..], next);
      NoPredicate(entries[0]);
      assert RenderingAll(columns, rows[..n]) + RenderingAll(columns, rows[n..]) == RenderingAll(columns, rows);
    } else {
      assert RenderingAll(columns, rows) == [];
    }
  }

  lemma {:induction false} ChunkLenPositive(rows: seq<Row>, size: nat)
    requires rows != [] && size > 0
    ensures ChunkLen(rows, size) > 0
  {
  }

  /**
    CMP4 is lossless: whatever codecs are chosen, a written file decodes to the rows it was made from, in order and cell by
    cell, with null for every missing field, exactly when there are at most 1,000,000 row groups and each is within the
    decoders' limits for the codecs it got.
  */
  lemma {:induction false} Lossless(crc: Checksum, columns: seq<ColumnSchema>, rows: seq<Row>, size: nat)
    requires size > 0 && EncodeFile(crc, columns, rows, size).Some? && |EncodeFile(crc, columns, rows, size).value| < U64_LIMIT
    requires NamesOk(columns) && |columns| <= MAX_COLLECTION_ENTRIES && RowsTyped(rows) && |rows| < U64_LIMIT
    ensures var gs := EncodeGroups(columns, rows, size, 0).value;
            Scan(crc, EncodeFile(crc, columns, rows, size).value, columns, [], None)
            == if |gs| <= MAX_COLLECTION_ENTRIES && WithinLimits(columns, rows, size)
               then Some(ScanResult(RenderingAll(columns, rows), |gs|, 0)) else None
    ensures ShowsRows(RenderingAll(columns, rows), columns, rows)
  {
    RenderingShows(columns, rows);
    hide ShowsRows;
    hide RowsTyped, SchemaOk, NamesOk, BodyOf, RowsOf, AppendFooter, WithinLimits, EntriesAll, HeaderOk, At;
    hide ScanGroups, DecodeFooter, RenderingAll, Numbered, EncodeGroups, Contiguous;
    var file := EncodeFile(crc, columns, rows, size).value;
    var gs := EncodeGroups(columns, rows, size, 0).value;
    EncodedIsFile(crc, columns, rows, size);
    if |gs| <= MAX_COLLECTION_ENTRIES {
      FileValidates(crc, gs, file);
      FileParts(crc, gs, file);
      GroupsReadBack(crc, file, columns, rows, size, 0, gs, HEADER_LEN);
      SchemaNonEmpty(columns);
    } else {
      TooManyGroups(crc, HeaderBytes() + BodyOf(crc, gs), FooterOf(gs), file);
    }
  }

  // ----- the loops -----

  lemma {:induction false} ChunksSnoc(cs: seq<Chunk>, c: Chunk)
    ensures ChunksBytes(cs + [c]) == ChunksBytes(cs) + ChunkBytes(c)
  {
    hide ChunkBytes;
    if cs == [] {
      assert [] + [c] == [c] && [c][1..] == [];
    } else {
      ChunksSnoc(cs[1..], c);
      assert (cs + [c])[0] == cs[0] && (cs + [c])[1..] == cs[1..] + [c];
      assert ChunkBytes(cs[0]) + (ChunksBytes(cs[1..]) + ChunkBytes(c)) == (ChunkBytes(cs[0]) + ChunksBytes(cs[1..])) + ChunkBytes(c);
    }
  }

  /** `encode_row_group`: the bytes of the group and its index entry grow column by column. */
  method EncodeRowGroup(crc: Checksum, columns: seq<ColumnSchema>, index: nat, firstRow: nat, rows: seq<Row>,
                        offset: nat)
    returns (r: Option<(seq<byte>, GroupEntry)>)
    ensures r == match EncodeGroup(columns, index, firstRow, rows)
                 case None => None
                 case Some(g) => Some((GroupFile(crc, g), EntryOf(g, offset)))
  {
    hide EncodeChunk, EntriesOf, ChunksBytes, Meta, Words, Le;
    var header := GroupMagic() + (Words([index, firstRow, |rows|, 0]) + Le32(|columns|));
    var group, entries: seq<ColumnEntry> := header, [];
    ghost var chunks: seq<Chunk> := [];
    assert columns[0..] == columns;
    PrefixedNothing(EncodeChunks(columns, rows));
    EntriesNone(offset + GROUP_HEADER_LEN);
    assert header + [] == header;
    for i := 0 to |columns|
      invariant |chunks| == i && group == header + ChunksBytes(chunks)
      invariant entries == EntriesOf(chunks, offset + GROUP_HEADER_LEN)
      invariant EncodeChunks(columns, rows) == Prefixed(chunks, EncodeChunks(columns[i..], rows))
    {
      assert columns[i..][0] == columns[i] && columns[i..][1..] == columns[i + 1..];
      var encoded := EncodeChunk(columns[i], rows);
      if encoded.None? {
        return None;
      }
      var chunk := encoded.value;
      var meta := Meta(chunk);
      var metadataOffset := offset + |group| + 4;
      NamedChunk(columns[i], rows);
      OneEntry(chunk, offset + |group|);
      ChunksSnoc(chunks, chunk);
      EntriesSnoc(chunks, chunk, offset + GROUP_HEADER_LEN);
      PrefixedMore(chunks, chunk, EncodeChunks(columns[i + 1..], rows));
      assert group + (Le32(|meta|) + meta + chunk.payload) == header + (ChunksBytes(chunks) + ChunkBytes(chunk));
      entries := entries + [ColumnEntry(columns[i].name, metadataOffset, |meta|, metadataOffset + |meta|, |chunk.payload|,
                                        chunk.metadata.valueCount, chunk.metadata.nullCount, chunk.metadata.statistics)];
      group := group + (Le32(|meta|) + meta + chunk.payload);
      chunks := chunks + [chunk];
    }
    BehindEnd(chunks, rows);
    assert columns[|columns|..] == [];
    ghost var g := RowGroup(index, firstRow, |rows|, 0, chunks);
    assert group == GroupBody(g);
    group := group + Le32(crc(group));
    return Some((group, GroupEntry(index, firstRow, |rows|, offset, |group|, entries)));
  }

  lemma {:induction false} BehindEnd(chunks: seq<Chunk>, rows: seq<Row>)
    ensures Prefixed(chunks, EncodeChunks([], rows)) == Some(chunks)
  {
    assert chunks + [] == chunks;
  }

  /** The chunk's own metadata is what the index entry copies. */
  lemma {:induction false} NamedChunk(c: ColumnSchema, rows: seq<Row>)
    requires EncodeChunk(c, rows).Some?
    ensures EncodeChunk(c, rows).value.metadata.compressedSize == |EncodeChunk(c, rows).value.payload|
    ensures EncodeChunk(c, rows).value.metadata.name == c.name
  {
    hide EncodeValues, StatisticsOf, CountTrue, Select, Collect, ColumnFormat.Encode;
    var column := Collect(c, rows).value;
    var chunk := EncodeChunk(c, rows).value;
    var codec := c.codec;
    if c.codec == Auto {
      SelectIsTried(c, column, Candidates(c.valueType), None);
      codec :| Try(c, column, codec) == Some(chunk);
    }
    assert EncodeColumn(c.(codec := codec), column) == Some(chunk);
  }

  lemma {:induction false} BodySnoc(crc: Checksum, gs: seq<RowGroup>, g: RowGroup)
    ensures BodyOf(crc, gs + [g]) == BodyOf(crc, gs) + GroupFile(crc, g)
  {
    hide GroupFile;
    if gs == [] {
      assert [] + [g] == [g] && [g][1..] == [];
    } else {
      BodySnoc(crc, gs[1..], g);
      assert (gs + [g])[1..] == gs[1..] + [g];
    }
  }

  /** One chunk of the loop: an error, or one more group. */
  lemma {:induction false} GroupsStep(columns: seq<ColumnSchema>, rows: seq<Row>, size: nat, gs: seq<RowGroup>)
    requires rows != [] && size > 0
    ensures var n := ChunkLen(rows, size);
            var g := EncodeGroup(columns, |gs|, FirstRow(|gs|, size), rows[..n]);
            Prefixed(gs, EncodeGroups(columns, rows, size, |gs|))
            == if g.None? then None else Prefixed(gs + [g.value], EncodeGroups(columns, rows[n..], size, |gs| + 1))
  {
    hide EncodeGroup, FirstRow;
    var n := ChunkLen(rows, size);
    var g := EncodeGroup(columns, |gs|, FirstRow(|gs|, size), rows[..n]);
    if g.Some? {
      PrefixedMore(gs, g.value, EncodeGroups(columns, rows[n..], size, |gs| + 1));
    }
  }

  lemma {:induction false} NoMoreGroups(columns: seq<ColumnSchema>, size: nat, gs: seq<RowGroup>)
    requires size > 0
    ensures Prefixed(gs, EncodeGroups(columns, [], size, |gs|)) == Some(gs)
  {
    PrefixedEnd(gs);
  }

  /** `encode_jsonl`: the loop over the chunks of the rows, with the growing file and index. */
  method EncodeJsonl(crc: Checksum, columns: seq<ColumnSchema>, rows: seq<Row>,
                     size: nat) returns (r: Option<seq<byte>>)
    ensures r == EncodeFile(crc, columns, rows, size)
  {
    hide SchemaOk, EncodeGroup, EncodeGroups, Prefixed, GroupFile, EntryOf, BodyOf, EntriesAll, AppendFooter;
    hide HeaderBytes, FirstRow, RowsOf;
    if size == 0 || !SchemaOk(columns) || |columns| >= U32_LIMIT {
      return None;
    }
    var file, groups: seq<GroupEntry>, done: nat := HeaderBytes(), [], 0;
    ghost var gs: seq<RowGroup> := [];
    assert rows[0..] == rows;
    PrefixedNothing(EncodeGroups(columns, rows, size, 0));
    NothingYet(crc, HEADER_LEN);
    assert HeaderBytes() + [] == HeaderBytes();
    while done < |rows|
      invariant done <= |rows|
      invariant file == HeaderBytes() + BodyOf(crc, gs) && groups == EntriesAll(gs, HEADER_LEN)
      invariant EncodeGroups(columns, rows, size, 0) == Prefixed(gs, EncodeGroups(columns, rows[done..], size, |gs|))
    {
      ghost var before := rows[done..];
      ChunkLenPositive(before, size);
      var n := if |rows| - done < size then |rows| - done else size;
      assert rows[done..done + n] == before[..n] && before[n..] == rows[done + n..];
      GroupsStep(columns, before, size, gs);
      var encoded := EncodeRowGroup(crc, columns, |groups|, FirstRow(|groups|, size), rows[done..done + n], |file|);
      if encoded.None? {
        return None;
      }
      ghost var g := EncodeGroup(columns, |gs|, FirstRow(|gs|, size), before[..n]).value;
      BodySnoc(crc, gs, g);
      EntriesAllSnoc(crc, gs, g, HEADER_LEN);
      assert file + GroupFile(crc, g) == HeaderBytes() + (BodyOf(crc, gs) + GroupFile(crc, g));
      file := file + encoded.value.0;
      groups := groups + [encoded.value.1];
      gs := gs + [g];
      done := done + n;
    }
    assert rows[done..] == [];
    NoMoreGroups(columns, size, gs);
    r := AppendFooter(crc, file, Footer(|rows|, groups));
  }
}
