/** The writer objects, proved against the functions of module Writer. */
module BlockWriter {
  import opened Wrappers
  import opened Bytes
  import opened Limits
  import opened BlockStream
  import opened Lines
  import opened Writer

  /** The rows collected for the next block. */
  class RowGroupBuffer {
    var data: seq<byte>
    var rowCount: nat
    var rawBytes: nat
    ghost var rows: seq<Line>

    ghost predicate Valid()
      reads this
    {
      data == Concat(rows) && rowCount == |rows| && rawBytes == |data|
    }

    constructor ()
      ensures Valid() && rows == []
    {
      data, rowCount, rawBytes, rows := [], 0, 0, [];
    }

    method PushLine(line: Line)
      requires Valid()
      modifies this
      ensures Valid() && rows == old(rows) + [line]
    {
      ConcatPush(rows, line);
      data := data + line;
      rowCount := rowCount + 1;
      rawBytes := rawBytes + |line|;
      rows := rows + [line];
    }

    predicate IsEmpty()
      reads this
    {
      rowCount == 0
    }

    predicate WouldExceedWith(line: Line, o: BlockOptions)
      requires Valid()
      reads this
      ensures WouldExceedWith(line, o) <==> WouldExceed(o, rows, line)
    {
      !IsEmpty() && (rowCount + 1 > o.maxRows || rawBytes + |line| > o.maxBytes)
    }

    predicate ReachedLimit(o: BlockOptions)
      requires Valid()
      reads this
      ensures ReachedLimit(o) <==> Reached(o, rows)
    {
      rowCount >= o.maxRows || rawBytes >= o.maxBytes
    }

    method Clear()
      modifies this
      ensures Valid() && rows == []
    {
      data, rowCount, rawBytes, rows := [], 0, 0, [];
    }
  }

  class JsonlBlockWriter {
    const crc: Checksum
    const codec: RowCodec
    const options: BlockOptions
    const current: RowGroupBuffer
    var output: seq<byte>
    var blocksWritten: nat
    var rowsWritten: u64
    var bytesWritten: u64
    var metadata: seq<BlockMetadata>

    ghost predicate Valid()
      reads this, current
    {
      ValidOptions(options) && current.Valid()
    }

    /** The writer's state as the functions of module Writer see it. */
    ghost function View(): WriterState
      reads this, current
    {
      WriterState(output, current.rows, blocksWritten, rowsWritten, bytesWritten, metadata)
    }

    /** Continue after `w`; a new stream continues after its header. */
    constructor (crc: Checksum, codec: RowCodec, options: BlockOptions, w: WriterState)
      requires ValidOptions(options) && w.buffer == []
      ensures Valid() && fresh(current) && View() == w
      ensures this.crc == crc && this.codec == codec && this.options == options
    {
      this.crc, this.codec, this.options := crc, codec, options;
      output, blocksWritten, rowsWritten, bytesWritten, metadata := w.output, w.blocks, w.rows, w.bytes, w.metadata;
      current := new RowGroupBuffer();
    }

    /** `flush_block`: on success exactly the state of the specification, on failure nothing is promised. */
    method FlushBlock() returns (ok: bool)
      requires Valid()
      modifies this, current
      ensures Valid()
      ensures ok <==> Flush(crc, codec, old(View())).Some?
      ensures ok ==> View() == Flush(crc, codec, old(View())).value
    {
      if current.IsEmpty() {
        return true;
      }
      if blocksWritten >= MAX_STREAM_BLOCKS {
        return false;
      }
      var rowGroup := EncodeRowGroup(codec, current.data);
      if rowGroup.None? {
        return false;
      }
      var g := rowGroup.value;
      var block := Block(blocksWritten, rowsWritten, AsU64(g.rows), AsU64(g.rawBytes), g.column);
      var frame := BlockFrame(crc, block);
      if rowsWritten + block.rows >= U64_LIMIT || bytesWritten + |frame| >= U64_LIMIT {
        return false;
      }
      output := output + frame;
      metadata := metadata + [MetadataOf(crc, block, bytesWritten)];
      blocksWritten := blocksWritten + 1;
      rowsWritten := rowsWritten + block.rows;
      bytesWritten := bytesWritten + |frame|;
      current.Clear();
      return true;
    }

    /** `write_jsonl_line` */
    method WriteJsonlLine(raw: Line) returns (ok: bool)
      requires Valid()
      modifies this, current
      ensures Valid()
      ensures ok <==> WriteLine(crc, codec, options, old(View()), raw).Some?
      ensures ok ==> View() == WriteLine(crc, codec, options, old(View()), raw).value
    {
      hide Flush, Blank, Normalize;
      if Blank(raw) {
        return true;
      }
      var normalized := Normalize(raw);
      if normalized.None? {
        return false;
      }
      var line := normalized.value;
      if |line| > options.maxBytes {
        return false;
      }
      if current.WouldExceedWith(line, options) {
        var flushed := FlushBlock();
        if !flushed {
          return false;
        }
      }
      current.PushLine(line);
      if current.ReachedLimit(options) {
        ok := FlushBlock();
        return;
      }
      return true;
    }

    /** `finish`: flush, then append the index of the blocks this writer wrote. */
    method Finish() returns (bytes: Option<seq<byte>>)
      requires Valid()
      modifies this, current
      ensures bytes == match Flush(crc, codec, old(View()))
                       case None => None
                       case Some(w) => Some(w.output + IndexFooter(w.metadata))
    {
      hide Flush;
      var ok := FlushBlock();
      return if ok then Some(output + IndexFooter(metadata)) else None;
    }

    /** `finish_without_footer` */
    method FinishWithoutFooter() returns (bytes: Option<seq<byte>>)
      requires Valid()
      modifies this, current
      ensures bytes == match Flush(crc, codec, old(View())) case None => None case Some(w) => Some(w.output)
    {
      hide Flush;
      var ok := FlushBlock();
      return if ok then Some(output) else None;
    }
  }

  /** The loop shared by `encode_jsonl_stream` and `append_jsonl_stream`. */
  method WriteAll(writer: JsonlBlockWriter, raws: seq<Line>) returns (ok: bool)
    requires writer.Valid()
    modifies writer, writer.current
    ensures writer.Valid()
    ensures ok <==> WriteLines(writer.crc, writer.codec, writer.options, old(writer.View()), raws).Some?
    ensures ok ==> writer.View() == WriteLines(writer.crc, writer.codec, writer.options, old(writer.View()), raws).value
  {
    hide WriteLine;
    ghost var goal := WriteLines(writer.crc, writer.codec, writer.options, writer.View(), raws);
    for k := 0 to |raws|
      invariant writer.Valid()
      invariant WriteLines(writer.crc, writer.codec, writer.options, writer.View(), raws[k..]) == goal
    {
      var written := writer.WriteJsonlLine(raws[k]);
      assert raws[k..][1..] == raws[k + 1..];
      if !written {
        return false;
      }
    }
    return true;
  }

  /** `encode_jsonl_stream`: the object writes what the specification says. */
  method EncodeJsonlStream(crc: Checksum, codec: RowCodec, options: BlockOptions, raws: seq<Line>, readOk: bool)
    returns (bytes: Option<seq<byte>>)
    ensures bytes == EncodeStream(crc, codec, options, raws, readOk)
  {
    hide Flush, WriteLines;
    if options.maxRows == 0 || options.maxBytes == 0 {
      return None;
    }
    var writer := new JsonlBlockWriter(crc, codec, options, Fresh());
    var ok := WriteAll(writer, raws);
    if !ok || !readOk {
      return None;
    }
    bytes := writer.Finish();
  }
}
