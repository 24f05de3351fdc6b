/** When a CMP4 file can be written, and which rows its groups have (crates/compact-core/src/io/v4.rs, `encode_jsonl`). */
module Cmp4Layout {
  import opened Wrappers
  import opened Bytes
  import opened Limits
  import opened Cmp4Format
  import opened RowGroups
  import opened Columns
  import opened ColumnSelect
  import opened Cmp4Recovery
  import opened Cmp4Validate
  import opened Cmp4Scan
  import opened Cmp4Encode
  import ColumnFormat

  /** The rows of group `k`: `size` of them from row `k * size` on, or what is left. */
  function GroupRowsAt(rows: seq<Row>, size: nat, k: nat): (part: seq<Row>)
    requires k * size <= |rows|
    ensures |part| == if |rows| - k * size < size then |rows| - k * size else size
  {
    var start := k * size;
    rows[start..if |rows| - start < size then |rows| else start + size]
  }

  lemma OneMore(k: nat, size: nat)
    ensures (k + 1) * size == k * size + size && (k + 1) * size >= size && 0 * size == 0
  {
  }

  /** The groups behind the first one are the groups of the rows behind it. */
  lemma {:induction false} BehindFirst(rows: seq<Row>, size: nat, k: nat)
    requires size > 0 && rows != []
    ensures var n := ChunkLen(rows, size);
            && ((k + 1) * size < |rows| <==> k * size < |rows[n..]|)
            && ((k + 1) * size < |rows| ==> GroupRowsAt(rows, size, k + 1) == GroupRowsAt(rows[n..], size, k))
  {
    OneMore(k, size);
    var n := ChunkLen(rows, size);
    if (k + 1) * size < |rows| {
      assert GroupRowsAt(rows, size, k + 1) == GroupRowsAt(rows[n..], size, k);
    }
  }

  lemma {:induction false} FirstRows(rows: seq<Row>, size: nat)
    requires size > 0
    ensures 0 * size == 0 && GroupRowsAt(rows, size, 0) == rows[..ChunkLen(rows, size)]
  {
    OneMore(0, size);
  }

  /**
    A written file has a group for every `size` rows, numbered in order: group `k` has the rows from `k * size` on, exactly
    `size` of them unless it is the last.
  */
  lemma {:induction false} GroupAt(columns: seq<ColumnSchema>, rows: seq<Row>, size: nat, index: nat, k: nat)
    requires size > 0 && EncodeGroups(columns, rows, size, index).Some?
    ensures var gs := EncodeGroups(columns, rows, size, index).value;
            && (k < |gs| <==> k * size < |rows|)
            && (k < |gs| ==>
                  && gs[k].index == index + k && gs[k].firstRow == (index + k) * size
                  && gs[k].rowCount == |GroupRowsAt(rows, size, k)|
                  && EncodeGroup(columns, index + k, (index + k) * size, GroupRowsAt(rows, size, k)) == Some(gs[k]))
    decreases k
  {
    hide EncodeGroup, ChunkLen, GroupRowsAt;
    var gs := EncodeGroups(columns, rows, size, index).value;
    OneMore(k, size);
    if rows != [] {
      var n := ChunkLen(rows, size);
      ChunkLenPositive(rows, size);
      GroupNumbers(columns, index, FirstRow(index, size), rows[..n]);
      assert gs == [gs[0]] + EncodeGroups(columns, rows[n..], size, index + 1).value;
      if k == 0 {
        FirstRows(rows, size);
        assert (index + 0) * size == index * size;
      } else {
        GroupAt(columns, rows[n..], size, index + 1, k - 1);
        BehindFirst(rows, size, k - 1);
        assert (index + 1) + (k - 1) == index + k;
      }
    }
  }

  // ----- when a file can be written -----

  /** The metadata of a chunk are short, whatever its codec. */
  lemma {:induction false} MetaShort(m: ColumnMetadata)
    requires ColumnFormat.Encode(m).Some? && |m.codecMetadata| <= 17 && |m.statistics| <= 17
    ensures |ColumnFormat.Encode(m).value| < U32_LIMIT
  {
    hide Le;
  }

  lemma {:induction false} TriedMetadata(schema: ColumnSchema, column: Column, codec: Codec)
    requires schema.name != [] && |schema.name| < 0x1_0000
    requires column.Type() == schema.valueType && (schema.nullable || CountTrue(column.Validity()) == column.Rows())
    requires Try(schema, column, codec).Some?
    ensures var m := Try(schema, column, codec).value.metadata;
            ColumnFormat.Encode(m).Some? && |ColumnFormat.Encode(m).value| < U32_LIMIT
  {
    hide StatisticsOf, CountTrue, Present, ColumnFormat.Encode, EncodeValues, StatisticsBytes;
    CandidateWritable(schema, column, codec);
    ValuesMetadata(codec, column);
    StatisticsShort(StatisticsOf(column));
    SizeOfMetadata(schema, column, codec);
    MetaShort(Try(schema, column, codec).value.metadata);
  }

  lemma {:induction false} SizeOfMetadata(schema: ColumnSchema, column: Column, codec: Codec)
    requires SizeOf(schema, column, codec).Some?
    ensures Try(schema, column, codec).Some? && ColumnFormat.Encode(Try(schema, column, codec).value.metadata).Some?
  {
    hide EncodeColumn, ColumnFormat.Encode;
  }

  lemma {:induction false} CollectedValid(c: ColumnSchema, rows: seq<Row>)
    requires Collect(c, rows).Some?
    ensures Collect(c, rows).value.Type() == c.valueType
    ensures c.nullable || CountTrue(Collect(c, rows).value.Validity()) == Collect(c, rows).value.Rows()
  {
    hide Collect, CountTrue;
    CollectShows(c, rows, 0);
    var column := Collect(c, rows).value;
    if !c.nullable {
      forall k | 0 <= k < |column.Validity()| ensures column.Validity()[k] {
        CollectShows(c, rows, k);
      }
      AllTrueCounts(column.Validity());
    }
  }

  /** A column of a group is written exactly when every row fits it and its codec, or one of them under `auto`, encodes it. */
  lemma {:induction false} ChunkExists(c: ColumnSchema, rows: seq<Row>)
    requires c.name != [] && |c.name| < 0x1_0000
    ensures EncodeChunk(c, rows).Some? <==>
            && (forall k :: 0 <= k < |rows| ==> CellFits(c, rows[k]))
            && Collect(c, rows).Some? && ColumnSelect.Encode(c, Collect(c, rows).value).Some?
  {
    hide Collect, CellFits, Select, EncodeColumn, CountTrue, ColumnFormat.Encode;
    CollectExists(c, rows);
    if Collect(c, rows).Some? && ColumnSelect.Encode(c, Collect(c, rows).value).Some? {
      var column := Collect(c, rows).value;
      CollectedValid(c, rows);
      var codec := c.codec;
      if c.codec == Auto {
        SelectIsTried(c, column, Candidates(c.valueType), None);
        codec :| Try(c, column, codec) == ColumnSelect.Encode(c, column);
      } else {
        assert c.(codec := codec) == c;
      }
      TriedMetadata(c, column, codec);
    }
  }

  lemma {:induction false} ChunksExist(columns: seq<ColumnSchema>, rows: seq<Row>)
    ensures EncodeChunks(columns, rows).Some? <==> forall c :: c in columns ==> EncodeChunk(c, rows).Some?
    decreases |columns|
  {
    hide EncodeChunk;
    if columns != [] {
      ChunksExist(columns[1..], rows);
      assert columns == [columns[0]] + columns[1..];
    }
  }

  /** The columns of every group can be written. */
  ghost predicate GroupsWritable(columns: seq<ColumnSchema>, rows: seq<Row>, size: nat) {
    forall k: nat, c :: k * size < |rows| && c in columns ==> ChunkOf(c, rows, size, k).Some?
  }

  function ChunkOf(c: ColumnSchema, rows: seq<Row>, size: nat, k: nat): Option<Chunk>
    requires k * size < |rows|
  {
    EncodeChunk(c, GroupRowsAt(rows, size, k))
  }

  lemma {:induction false} WritableCons(columns: seq<ColumnSchema>, rows: seq<Row>, size: nat)
    requires size > 0 && rows != []
    ensures var n := ChunkLen(rows, size);
            GroupsWritable(columns, rows, size) <==>
            (forall c :: c in columns ==> EncodeChunk(c, rows[..n]).Some?) && GroupsWritable(columns, rows[n..], size)
  {
    hide EncodeChunk, ChunkLen, GroupRowsAt;
    var n := ChunkLen(rows, size);
    FirstRows(rows, size);
    if GroupsWritable(columns, rows, size) {
      forall c | c in columns ensures EncodeChunk(c, rows[..n]).Some? {
        assert ChunkOf(c, rows, size, 0).Some?;
      }
      forall k: nat, c | k * size < |rows[n..]| && c in columns ensures ChunkOf(c, rows[n..], size, k).Some? {
        BehindFirst(rows, size, k);
        assert ChunkOf(c, rows, size, k + 1).Some?;
      }
    }
    if (forall c :: c in columns ==> EncodeChunk(c, rows[..n]).Some?) && GroupsWritable(columns, rows[n..], size) {
      forall k: nat, c | k * size < |rows| && c in columns ensures ChunkOf(c, rows, size, k).Some? {
        if k > 0 {
          var j: nat := k - 1;
          BehindFirst(rows, size, j);
          assert ChunkOf(c, rows[n..], size, j).Some?;
        }
      }
    }
  }

  lemma {:induction false} GroupsExist(columns: seq<ColumnSchema>, rows: seq<Row>, size: nat, index: nat)
    requires size > 0
    ensures EncodeGroups(columns, rows, size, index).Some? <==> GroupsWritable(columns, rows, size)
    decreases |rows|
  {
    if rows != [] {
      ChunkLenPositive(rows, size);
      hide EncodeChunk, ChunkLen, GroupsWritable, EncodeChunks;
      var n := ChunkLen(rows, size);
      ChunksExist(columns, rows[..n]);
      WritableCons(columns, rows, size);
      GroupsExist(columns, rows[n..], size, index + 1);
    }
  }

  /**
    A file is written exactly when the schema is valid, groups have rows, and the columns of every group can be written;
    its length is the only other limit.
  */
  lemma {:induction false} FileExists(crc: Checksum, columns: seq<ColumnSchema>, rows: seq<Row>, size: nat)
    requires NamesOk(columns) && |columns| <= MAX_COLLECTION_ENTRIES && RowsTyped(rows) && |rows| < U64_LIMIT
    requires size > 0 && EncodeGroups(columns, rows, size, 0).Some? ==>
               |HeaderBytes() + BodyOf(crc, EncodeGroups(columns, rows, size, 0).value)| < U64_LIMIT
    ensures EncodeFile(crc, columns, rows, size).Some? <==> size > 0 && SchemaOk(columns) && GroupsWritable(columns, rows, size)
  {
    hide SchemaOk, NamesOk, AllOk, Numbered, BodyOf, RowsOf, AppendFooter, RowsTyped, EntriesAll, EncodeGroups;
    hide GroupsWritable, HeaderBytes;
    if size > 0 && SchemaOk(columns) {
      GroupsExist(columns, rows, size, 0);
      if EncodeGroups(columns, rows, size, 0).Some? {
        var gs := EncodeGroups(columns, rows, size, 0).value;
        assert FirstRow(0, size) == 0 by { assert 0 * size == 0; }
        GroupsAreGood(crc, columns, rows, size, 0);
        GroupsMakeFile(crc, gs, HeaderBytes() + BodyOf(crc, gs));
      }
    }
  }
}
