/**
  CMP2 streams of column blocks: the stream theorems for the codec of crates/compact-core/src/io/mod.rs, and options
  under which no reader's limit is ever in the way.
*/
module ColumnStreams {
  import opened Wrappers
  import opened Bytes
  import opened Limits
  import opened BlockStream
  import opened Lines
  import opened Writer
  import opened Recovery
  import opened Reader
  import opened AppendLog
  import opened Rolling
  import opened ColumnBlocks
  import opened ColumnSelect
  import Numbers
  import Rle
  import Strings
  import Utf8
  import Varint

  /** A JSON library reads unsigned 64-bit numbers, and UTF-8 strings that are no longer than the line they stand in. */
  ghost predicate WellTyped(json: JsonLibrary) {
    forall line: Line, name: Text :: json.parse(line).Some? && name in json.parse(line).value ==>
      ValueOk(json.parse(line).value[name], |line|)
  }

  predicate ValueOk(value: Json, size: nat) {
    match value
    case Number(n) => n < U64_LIMIT
    case String(t) => Utf8.Valid(t) && |t| <= size
    case _ => true
  }

  // ----- the rows of a row group -----

  lemma {:induction false} LineInGroup(lines: seq<Line>, k: nat)
    requires k < |lines|
    ensures |lines[k]| <= |Concat(lines)|
    decreases k
  {
    if k > 0 {
      LineInGroup(lines[1..], k - 1);
    }
  }

  lemma {:induction false} BodyShorter(line: Line)
    ensures |Body(line)| <= |line|
  {
  }

  /** A value of a parsed row: in range, and no longer than its line. */
  lemma {:induction false} ValueInRange(json: JsonLibrary, group: seq<Line>, k: nat, name: Text)
    requires WellTyped(json) && ParseAll(json, Bodies(group)).Some? && k < |group|
    ensures |ParseAll(json, Bodies(group)).value| == |group|
    ensures name in ParseAll(json, Bodies(group)).value[k] ==>
              ValueOk(ParseAll(json, Bodies(group)).value[k][name], |group[k]|)
  {
    hide ParseAll, Bodies, Body, Utf8.Valid;
    ParsedAt(json, Bodies(group), k);
    BodiesAt(group, k);
    BodyShorter(group[k]);
    var line := Body(group[k]);
    assert json.parse(line) == Some(ParseAll(json, Bodies(group)).value[k]);
  }

  /** The values a row group has in one column are in range, and its strings no longer than its text. */
  lemma {:induction false} ValuesOfGroup(json: JsonLibrary, group: seq<Line>, c: ColumnSchema)
    requires WellTyped(json) && ParseAll(json, Bodies(group)).Some? && |Concat(group)| < U64_LIMIT
    requires ColumnBlocks.Collect(c, ParseAll(json, Bodies(group)).value).Some?
    ensures var values := ColumnBlocks.Collect(c, ParseAll(json, Bodies(group)).value).value;
            && ValuesTyped(values) && values.Count() == |group|
            && (values.Strings? ==> Strings.RawSize(values.texts) <= |Concat(group)|)
  {
    hide ParseAll, Bodies, Concat, Utf8.Valid, WellTyped;
    var rows := ParseAll(json, Bodies(group)).value;
    var values := ColumnBlocks.Collect(c, rows).value;
    ParsedAt(json, Bodies(group), 0);
    BodiesAt(group, 0);
    CollectKind(c, rows);
    forall k | 0 <= k < |group| ensures ValueOk(values.At(k), |group[k]|) && |group[k]| < U64_LIMIT {
      ValueInRange(json, group, k, c.name);
      LineInGroup(group, k);
      assert ColumnBlocks.Holds(c, rows[k]);
    }
    if values.Strings? {
      forall k | 0 <= k < |group| ensures |values.texts[k]| <= |group[k]| {
        assert values.At(k) == String(values.texts[k]);
      }
      RawBelow(values.texts, group);
      forall k | 0 <= k < |values.texts| ensures Utf8.Valid(values.texts[k]) && |values.texts[k]| < U64_LIMIT {
        assert values.At(k) == String(values.texts[k]);
      }
    } else {
      forall k | 0 <= k < |values.numbers| ensures values.numbers[k] < U64_LIMIT {
        assert values.At(k) == Number(values.numbers[k]);
      }
    }
  }

  lemma {:induction false} RawBelow(texts: seq<Text>, lines: seq<Line>)
    requires |texts| == |lines| && forall k :: 0 <= k < |texts| ==> |texts[k]| <= |lines[k]|
    ensures Strings.RawSize(texts) <= |Concat(lines)|
    decreases |texts|
  {
    if texts != [] {
      RawBelow(texts[1..], lines[1..]);
    }
  }

  // ----- sizes -----

  lemma {:induction false} VarintsSize(vs: seq<nat>)
    requires AllU64(vs)
    ensures |Varint.EncodeAll(vs)| <= 10 * |vs|
    decreases |vs|
  {
    hide Varint.Encode;
    if vs != [] {
      Strings.VarintAtMostTen(vs[0]);
      VarintsSize(vs[1..]);
    }
  }

  lemma {:induction false} RunsSize(data: seq<byte>)
    ensures |Rle.Encode(data)| <= 2 * |data|
    decreases |data|
  {
    if data != [] {
      RunsSize(data[Rle.RunLength(data, 1)..]);
    }
  }

  lemma {:induction false} RawSnoc(texts: seq<Text>, t: Text)
    ensures Strings.RawSize(texts + [t]) == Strings.RawSize(texts) + |t|
    decreases |texts|
  {
    if texts == [] {
      assert [] + [t] == [t] && [t][1..] == [];
    } else {
      assert (texts + [t])[1..] == texts[1..] + [t];
      RawSnoc(texts[1..], t);
    }
  }

  lemma {:induction false} DictionaryRaw(texts: seq<Text>)
    ensures Strings.RawSize(Strings.DictionaryOf(texts)) <= Strings.RawSize(texts)
    decreases |texts|
  {
    if texts != [] {
      var (front, last) := (texts[..|texts| - 1], texts[|texts| - 1]);
      DictionaryRaw(front);
      RawSnoc(front, last);
      RawSnoc(Strings.DictionaryOf(front), last);
      assert front + [last] == texts;
    }
  }

  lemma {:induction false} DictionarySized(texts: seq<Text>)
    requires Strings.AllSized(texts)
    ensures Strings.AllSized(Strings.DictionaryOf(texts))
  {
    hide Strings.DictionaryOf;
    Strings.DictionarySound(texts);
  }

  /** No column payload of a row group is longer than this, whatever the rows. */
  function PayloadBound(o: BlockOptions): nat {
    2 * o.maxBytes + 30 * o.maxRows + 10
  }

  lemma {:induction false} PayloadSize(c: ColumnSchema, values: Values, o: BlockOptions)
    requires ValuesTyped(values) && values.Count() <= o.maxRows < U64_LIMIT
    requires values.Strings? ==> Strings.RawSize(values.texts) <= o.maxBytes
    requires EncodeValues(c, values).Some?
    ensures |EncodeValues(c, values).value| <= PayloadBound(o)
    ensures values.Strings? ==> |Strings.EncodeStored(values.texts)| <= o.maxBytes + 10 * o.maxRows
  {
    hide Varint.Encode, Varint.EncodeAll, Strings.EncodeStored, Strings.RawSize, Strings.DictionaryOf, Strings.Ids;
    hide Rle.Encode;
    hide Numbers.DeltasFrom, Strings.AllSized, AllU64, Utf8.AllValid;
    if values.U64s? {
      Numbers.DeltasLength(0, values.numbers);
      VarintsSize(Numbers.DeltasFrom(0, values.numbers).value);
    } else {
      var texts := values.texts;
      Strings.StoredSize(texts);
      RunsSize(Strings.EncodeStored(texts));
      var d := Strings.DictionaryOf(texts);
      DictionarySized(texts);
      DictionaryRaw(texts);
      Strings.StoredSize(d);
      Strings.VarintAtMostTen(|d|);
      IdsFit(texts);
      VarintsSize(Strings.Ids(texts));
    }
  }

  function BlocksBound(columns: seq<ColumnSchema>, o: BlockOptions): nat {
    if columns == [] then 0 else 19 + |columns[0].name| + PayloadBound(o) + BlocksBound(columns[1..], o)
  }

  lemma {:induction false} BlocksSize(json: JsonLibrary, columns: seq<ColumnSchema>, group: seq<Line>, o: BlockOptions)
    requires WellTyped(json) && ParseAll(json, Bodies(group)).Some?
    requires |group| <= o.maxRows < U64_LIMIT && |Concat(group)| <= o.maxBytes < U64_LIMIT
    requires EncodeBlocks(columns, ParseAll(json, Bodies(group)).value).Some?
    ensures |EncodeBlocks(columns, ParseAll(json, Bodies(group)).value).value| <= BlocksBound(columns, o)
    decreases |columns|
  {
    hide ParseAll, Bodies, Concat, WellTyped, ColumnBlocks.Collect, EncodeValues, ValuesTyped, PayloadBound;
    hide Strings.RawSize;
    if columns != [] {
      var rows := ParseAll(json, Bodies(group)).value;
      var values := ColumnBlocks.Collect(columns[0], rows).value;
      ValuesOfGroup(json, group, columns[0]);
      PayloadSize(columns[0], values, o);
      BlocksSize(json, columns[1..], group, o);
    }
  }

  // ----- what the readers ask of a run -----

  /** Every run-length column of a row group stays within the readers' limit on decoded bytes. */
  ghost predicate StoredFits(json: JsonLibrary, columns: seq<ColumnSchema>, group: seq<Line>) {
    match ParseAll(json, Bodies(group))
    case None => true
    case Some(rows) => forall c, v :: c in columns && ColumnBlocks.Collect(c, rows) == Some(v) ==> WithinLimit(c, v)
  }

  ghost predicate AllStoredFits(json: JsonLibrary, columns: seq<ColumnSchema>, groups: seq<seq<Line>>) {
    forall k :: 0 <= k < |groups| ==> StoredFits(json, columns, groups[k])
  }

  lemma {:induction false} GroupFits(json: JsonLibrary, columns: seq<ColumnSchema>, group: seq<Line>)
    requires WellTyped(json) && StoredFits(json, columns, group) && |Concat(group)| < U64_LIMIT
    requires ParseAll(json, Bodies(group)).Some?
    ensures Fit(columns, ParseAll(json, Bodies(group)).value)
  {
    hide ParseAll, Bodies, Concat, WellTyped, ColumnBlocks.Collect, ValuesTyped, WithinLimit, Strings.RawSize;
    var rows := ParseAll(json, Bodies(group)).value;
    forall c, v | c in columns && ColumnBlocks.Collect(c, rows) == Some(v) ensures ValuesTyped(v) && WithinLimit(c, v) {
      ValuesOfGroup(json, group, c);
    }
  }

  /** A block's column is what the codec makes of the bodies of its row group. */
  lemma {:induction false} ColumnOf(json: JsonLibrary, columns: seq<ColumnSchema>, o: BlockOptions, group: seq<Line>,
                                    index: u64, row: u64)
    requires GoodGroup(o, group) && BlockOf(CodecOf(json, columns), Concat(group), index, row).Some?
    ensures ColumnBlocks.Encode(json, columns, Bodies(group)) == Some(BlockOf(CodecOf(json, columns), Concat(group), index, row).value.column)
  {
    RowsOfConcat(group);
    hide ColumnBlocks.Encode, Concat, RowsOf, Bodies;
  }

  /** The row groups that a reader gets to keep its limits, once every run-length column does. */
  lemma {:induction false} ReadableFit(json: JsonLibrary, columns: seq<ColumnSchema>, o: BlockOptions,
                                       groups: seq<seq<Line>>,
                                       index: nat, row: nat)
    requires WellTyped(json) && GoodGroups(o, groups) && o.maxBytes < U64_LIMIT
    requires AllStoredFits(json, columns, ReadableGroups(CodecOf(json, columns), groups, index, row))
    ensures GroupsFit(json, columns, ReadableGroups(CodecOf(json, columns), groups, index, row))
  {
    hide BlocksOf, EncodeBlocks, ParseAll, SchemaOk, Bodies, Concat, WellTyped, Fit, StoredFits, Readable;
    var codec := CodecOf(json, columns);
    var kept := ReadableGroups(codec, groups, index, row);
    forall k | 0 <= k < |kept| && ColumnBlocks.Encode(json, columns, Bodies(kept[k])).Some?
      ensures |ColumnBlocks.Encode(json, columns, Bodies(kept[k])).value| < U64_LIMIT
      ensures Fit(columns, ParseAll(json, Bodies(kept[k])).value)
    {
      assert kept[k] == groups[k] && GoodGroup(o, groups[k]);
      GroupFits(json, columns, kept[k]);
      ReadableColumn(json, columns, o, groups, index, row, k);
    }
  }

  lemma {:induction false} EncodedRows(json: JsonLibrary, columns: seq<ColumnSchema>, lines: seq<Line>)
    requires ColumnBlocks.Encode(json, columns, lines).Some?
    ensures ParseAll(json, lines).Some? && EncodeBlocks(columns, ParseAll(json, lines).value).Some?
    ensures |ColumnBlocks.Encode(json, columns, lines).value| == 8 + |EncodeBlocks(columns, ParseAll(json, lines).value).value|
  {
  }

  lemma {:induction false} ReadableColumn(json: JsonLibrary, columns: seq<ColumnSchema>, o: BlockOptions,
                                          groups: seq<seq<Line>>,
                                          index: nat, row: nat, k: nat)
    requires GoodGroups(o, groups) && k < |ReadableGroups(CodecOf(json, columns), groups, index, row)|
    ensures ColumnBlocks.Encode(json, columns, Bodies(groups[k])).Some?
    ensures |ColumnBlocks.Encode(json, columns, Bodies(groups[k])).value| <= MAX_ENCODED_BLOCK_BYTES
    decreases k
  {
    hide ColumnBlocks.Encode, Bodies, Concat, BlockOf, GoodGroup;
    var codec := CodecOf(json, columns);
    var b := BlockOf(codec, Concat(groups[0]), AsU64(index), AsU64(row)).value;
    var bs := BlocksOf(codec, groups, index, row).value;
    assert bs[0] == b && bs[1..] == BlocksOf(codec, groups[1..], index + 1, row + b.rows).value;
    if k == 0 {
      ColumnOf(json, columns, o, groups[0], AsU64(index), AsU64(row));
    } else {
      ReadableColumn(json, columns, o, groups[1..], index + 1, row + b.rows, k - 1);
    }
  }

  /** The codec is lossless on the canonical row groups that a reader gets to. */
  lemma {:induction false} GroupsLossless(json: JsonLibrary, columns: seq<ColumnSchema>, o: BlockOptions,
                                          groups: seq<seq<Line>>,
                                          index: nat, row: nat)
    requires o.maxRows < U64_LIMIT && o.maxBytes < U64_LIMIT && WellTyped(json) && GoodGroups(o, groups)
    requires AllCanonical(json, columns, Flatten(groups))
    requires AllStoredFits(json, columns, ReadableGroups(CodecOf(json, columns), groups, index, row))
    ensures Lossless(CodecOf(json, columns), ReadableGroups(CodecOf(json, columns), groups, index, row))
  {
    hide BlocksOf, WellTyped, Canonical, Flatten, GoodGroup, AllStoredFits, GroupsFit, Readable, Lossless;
    ReadableFit(json, columns, o, groups, index, row);
    var kept := ReadableGroups(CodecOf(json, columns), groups, index, row);
    assert kept == groups[..|kept|];
    var all := Flatten(groups);
    assert groups == groups[..|kept|] + groups[|kept|..];
    FlattenAppend(groups[..|kept|], groups[|kept|..]);
    forall k | 0 <= k < |Flatten(kept)| ensures Canonical(json, columns, Flatten(kept)[k]) {
      assert Flatten(kept)[k] == all[k];
    }
    ColumnBlocksLossless(json, columns, o, kept);
  }

  /** The codec is lossless on the part of a run that a reader gets to. */
  lemma {:induction false} RunLossless(json: JsonLibrary, columns: seq<ColumnSchema>, o: BlockOptions, raws: seq<Line>,
                                       index: nat, row: nat)
    requires ValidOptions(o) && o.maxRows < U64_LIMIT && o.maxBytes < U64_LIMIT && WellTyped(json) && Split(o, raws).Some?
    requires NormalRows(raws).Some? ==> AllCanonical(json, columns, NormalRows(raws).value)
    requires AllStoredFits(json, columns, ReadableGroups(CodecOf(json, columns), Split(o, raws).value, index, row))
    ensures Lossless(CodecOf(json, columns), ReadableGroups(CodecOf(json, columns), Split(o, raws).value, index, row))
  {
    hide Split, WellTyped, AllCanonical, Flatten, GoodGroups, NormalRows, AllStoredFits, ReadableGroups, Lossless;
    SplitGood(o, raws);
    GroupsLossless(json, columns, o, Split(o, raws).value, index, row);
  }

  // ----- the stream theorems for column blocks -----

  /**
    A sealed stream of column blocks decodes to the canonical lines it was made from, if every frame is within the
    readers' size limit, and not at all otherwise.
  */
  lemma {:induction false} SealedColumnBlocks(crc: Checksum, json: JsonLibrary, columns: seq<ColumnSchema>,
                                              o: BlockOptions, raws: seq<Line>)
    returns (contents: seq<Line>)
    requires ValidOptions(o) && o.maxRows < U64_LIMIT && o.maxBytes < U64_LIMIT && WellTyped(json)
    requires NormalRows(raws).Some? ==> AllCanonical(json, columns, NormalRows(raws).value)
    requires EncodeStream(crc, CodecOf(json, columns), o, raws, true).Some?
    requires |EncodeStream(crc, CodecOf(json, columns), o, raws, true).value| < U64_LIMIT
    requires Split(o, raws).Some? ==>
               AllStoredFits(json, columns, ReadableGroups(CodecOf(json, columns), Split(o, raws).value, 0, 0))
    ensures Contents(raws, contents) && NormalRows(raws) == Some(Terminated(contents))
    ensures AddedBlocks(CodecOf(json, columns), o, [], raws).Some?
    ensures DecodeStream(crc, CodecOf(json, columns), EncodeStream(crc, CodecOf(json, columns), o, raws, true).value, true) ==
            if FramesFit(AddedBlocks(CodecOf(json, columns), o, [], raws).value) then Some(Concat(Terminated(contents))) else None
  {
    hide EncodeStream, DecodeStream, Split, BlocksOf, WellTyped, AllCanonical, NormalRows, Contents, AllStoredFits;
    hide Lossless;
    hide FramesFit, Readable, Concat;
    if Split(o, raws).Some? {
      RunLossless(json, columns, o, raws, 0, 0);
    }
    contents := EncodeThenDecode(crc, CodecOf(json, columns), o, raws);
  }

  /** Replay of column blocks after an append is the old replay and the new canonical lines, exactly within the limits. */
  lemma {:induction false} AppendColumnBlocks(crc: Checksum, json: JsonLibrary, columns: seq<ColumnSchema>,
                                              o: BlockOptions,
                                              existing: seq<byte>, raws: seq<Line>)
    returns (contents: seq<Line>)
    requires |existing| < U64_LIMIT && ValidOptions(o) && o.maxRows < U64_LIMIT && o.maxBytes < U64_LIMIT && WellTyped(json)
    requires NormalRows(raws).Some? ==> AllCanonical(json, columns, NormalRows(raws).value)
    requires Recover(crc, existing).Some? && Append(crc, CodecOf(json, columns), o, existing, raws, true).Some?
    requires HeaderOk(existing) ==> Replay(crc, CodecOf(json, columns), existing).Some?
    requires var before := BlocksIn(crc, existing);
             Split(o, raws).Some? ==>
               AllStoredFits(json, columns, ReadableGroups(CodecOf(json, columns), Split(o, raws).value, |before|, TotalRows(before)))
    ensures Contents(raws, contents) && NormalRows(raws) == Some(Terminated(contents))
    ensures AddedBlocks(CodecOf(json, columns), o, BlocksIn(crc, existing), raws).Some?
    ensures var codec, before := CodecOf(json, columns), BlocksIn(crc, existing);
            var rows := Concat(Terminated(contents));
            Replay(crc, codec, Append(crc, codec, o, existing, raws, true).value) ==
              Some(OldText(crc, codec, existing) + rows)
            <==> FramesFit(AddedBlocks(codec, o, before, raws).value) && TotalRaw(before) + |rows| < U64_LIMIT
  {
    hide Append, Replay, HeaderOk, Recover, Split, BlocksOf, BlocksIn, WellTyped, AllCanonical, NormalRows, Contents;
    hide AllStoredFits, Lossless, FramesFit;
    hide Readable, Concat, TotalRows, TotalRaw, OldText;
    if Split(o, raws).Some? {
      RunLossless(json, columns, o, raws, |BlocksIn(crc, existing)|, TotalRows(BlocksIn(crc, existing)));
    }
    contents := AppendThenReplay(crc, CodecOf(json, columns), o, existing, raws);
  }

  // ----- options that keep every limit -----

  /** Schema and options under which no row group can exceed a limit of the readers. */
  predicate Roomy(columns: seq<ColumnSchema>, o: BlockOptions) {
    && o.maxBytes + 10 * o.maxRows <= MAX_DECODED_BYTES
    && BLOCK_HEADER_LEN + 8 + BlocksBound(columns, o) <= MAX_ENCODED_BLOCK_BYTES
  }

  lemma {:induction false} RoomyStored(json: JsonLibrary, columns: seq<ColumnSchema>, o: BlockOptions, group: seq<Line>)
    requires WellTyped(json) && Roomy(columns, o) && GoodGroup(o, group)
    ensures StoredFits(json, columns, group)
  {
    hide ParseAll, Bodies, Concat, WellTyped, ColumnBlocks.Collect, BlocksBound, AllNormal, ValuesTyped;
    hide Strings.RawSize;
    if ParseAll(json, Bodies(group)).Some? {
      var rows := ParseAll(json, Bodies(group)).value;
      forall c, values | c in columns && ColumnBlocks.Collect(c, rows) == Some(values) ensures WithinLimit(c, values) {
        ValuesOfGroup(json, group, c);
        if values.Strings? {
          TextsTyped(values);
          Strings.StoredSize(values.texts);
        }
      }
    }
  }

  lemma {:induction false} TextsTyped(values: Values)
    requires ValuesTyped(values) && values.Strings?
    ensures Strings.AllSized(values.texts)
  {
  }

  lemma {:induction false} RoomyFrame(json: JsonLibrary, columns: seq<ColumnSchema>, o: BlockOptions, group: seq<Line>,
                                      index: u64, row: u64)
    requires WellTyped(json) && Roomy(columns, o) && GoodGroup(o, group)
    requires BlockOf(CodecOf(json, columns), Concat(group), index, row).Some?
    ensures |BlockPayload(BlockOf(CodecOf(json, columns), Concat(group), index, row).value)| <= MAX_ENCODED_BLOCK_BYTES
  {
    hide ParseAll, Bodies, Concat, WellTyped, EncodeBlocks, ColumnBlocks.Encode, BlocksBound, AllNormal, BlockOf;
    ColumnOf(json, columns, o, group, index, row);
    EncodedRows(json, columns, Bodies(group));
    BlocksSize(json, columns, group, o);
  }

  lemma {:induction false} RoomyFrames(json: JsonLibrary, columns: seq<ColumnSchema>, o: BlockOptions,
                                       groups: seq<seq<Line>>,
                                       index: nat, row: nat)
    requires WellTyped(json) && Roomy(columns, o) && GoodGroups(o, groups)
    ensures AllStoredFits(json, columns, groups)
    ensures BlocksOf(CodecOf(json, columns), groups, index, row).Some? ==>
              FramesFit(BlocksOf(CodecOf(json, columns), groups, index, row).value)
    decreases |groups|
  {
    hide WellTyped, Roomy, GoodGroup, BlockOf, Concat, StoredFits, BlockPayload;
    forall k | 0 <= k < |groups| ensures StoredFits(json, columns, groups[k]) {
      RoomyStored(json, columns, o, groups[k]);
    }
    var codec := CodecOf(json, columns);
    if groups != [] && BlocksOf(codec, groups, index, row).Some? {
      var b := BlockOf(codec, Concat(groups[0]), AsU64(index), AsU64(row)).value;
      RoomyFrame(json, columns, o, groups[0], AsU64(index), AsU64(row));
      RoomyFrames(json, columns, o, groups[1..], index + 1, row + b.rows);
      var bs := BlocksOf(codec, groups, index, row).value;
      var rest := BlocksOf(codec, groups[1..], index + 1, row + b.rows).value;
      forall k | 0 <= k < |bs| ensures |BlockPayload(bs[k])| <= MAX_ENCODED_BLOCK_BYTES {
        assert k > 0 ==> bs[k] == rest[k - 1];
      }
    }
  }

  /** With such options sealed column blocks always round trip. */
  lemma {:induction false} RoomyRoundTrip(crc: Checksum, json: JsonLibrary, columns: seq<ColumnSchema>,
                                          o: BlockOptions, raws: seq<Line>)
    returns (contents: seq<Line>)
    requires ValidOptions(o) && Roomy(columns, o) && WellTyped(json)
    requires NormalRows(raws).Some? ==> AllCanonical(json, columns, NormalRows(raws).value)
    requires EncodeStream(crc, CodecOf(json, columns), o, raws, true).Some?
    requires |EncodeStream(crc, CodecOf(json, columns), o, raws, true).value| < U64_LIMIT
    ensures Contents(raws, contents) && NormalRows(raws) == Some(Terminated(contents))
    ensures DecodeStream(crc, CodecOf(json, columns), EncodeStream(crc, CodecOf(json, columns), o, raws, true).value, true)
         == Some(Concat(Terminated(contents)))
  {
    hide EncodeStream, DecodeStream, Split, BlocksOf, WellTyped, AllCanonical, NormalRows, Contents, FramesFit;
    hide Readable;
    hide Concat, GoodGroups, StoredFits;
    hide BlocksBound;
    if Split(o, raws).Some? {
      SplitGood(o, raws);
      RoomyFrames(json, columns, o, Split(o, raws).value, 0, 0);
    }
    contents := SealedColumnBlocks(crc, json, columns, o, raws);
  }

  /** With such options replay of column blocks after an append fails only when the raw sizes overflow. */
  lemma {:induction false} RoomyAppend(crc: Checksum, json: JsonLibrary, columns: seq<ColumnSchema>, o: BlockOptions,
                                       existing: seq<byte>, raws: seq<Line>)
    returns (contents: seq<Line>)
    requires |existing| < U64_LIMIT && ValidOptions(o) && Roomy(columns, o) && WellTyped(json)
    requires NormalRows(raws).Some? ==> AllCanonical(json, columns, NormalRows(raws).value)
    requires Recover(crc, existing).Some? && Append(crc, CodecOf(json, columns), o, existing, raws, true).Some?
    requires HeaderOk(existing) ==> Replay(crc, CodecOf(json, columns), existing).Some?
    ensures Contents(raws, contents) && NormalRows(raws) == Some(Terminated(contents))
    ensures var codec := CodecOf(json, columns);
            var rows := Concat(Terminated(contents));
            Replay(crc, codec, Append(crc, codec, o, existing, raws, true).value) ==
              Some(OldText(crc, codec, existing) + rows)
            <==> TotalRaw(BlocksIn(crc, existing)) + |rows| < U64_LIMIT
  {
    hide Append, Replay, HeaderOk, Recover, Split, BlocksOf, BlocksIn, WellTyped, AllCanonical, NormalRows, Contents;
    hide FramesFit;
    hide Readable, Concat;
    hide GoodGroups, StoredFits, BlocksBound, TotalRows, TotalRaw, OldText;
    var before := BlocksIn(crc, existing);
    if Split(o, raws).Some? {
      SplitGood(o, raws);
      RoomyFrames(json, columns, o, Split(o, raws).value, |before|, TotalRows(before));
    }
    contents := AppendColumnBlocks(crc, json, columns, o, existing, raws);
  }

  /** The rows of one segment, among the rows of all. */
  lemma {:induction false} SegmentRows(json: JsonLibrary, columns: seq<ColumnSchema>, plan: seq<seq<seq<Line>>>, k: nat)
    requires k < |plan| && AllCanonical(json, columns, Rows(plan))
    ensures AllCanonical(json, columns, Flatten(plan[k])) && |Concat(Flatten(plan[k]))| <= |Concat(Rows(plan))|
    decreases k
  {
    hide Canonical, Flatten, Concat;
    var (first, rest) := (Flatten(plan[0]), Rows(plan[1..]));
    var all := Rows(plan);
    assert all == first + rest;
    ConcatAppend(first, rest);
    if k == 0 {
      forall i | 0 <= i < |first| ensures Canonical(json, columns, first[i]) {
        assert all[i] == first[i];
      }
    } else {
      forall i | 0 <= i < |rest| ensures Canonical(json, columns, rest[i]) {
        assert all[|first| + i] == rest[i];
      }
      SegmentRows(json, columns, plan[1..], k - 1);
    }
  }

  lemma {:induction false} RoomySegment(crc: Checksum, json: JsonLibrary, columns: seq<ColumnSchema>, o: BlockOptions,
                                        r: RollingOptions,
                                        bytes: seq<byte>, groups: seq<seq<Line>>)
    requires Roomy(columns, o) && WellTyped(json) && Segment(crc, CodecOf(json, columns), o, r, bytes, groups)
    requires AllCanonical(json, columns, Flatten(groups)) && |Concat(Flatten(groups))| < U64_LIMIT
    ensures Lossless(CodecOf(json, columns), ReadableGroups(CodecOf(json, columns), groups, 0, 0))
    ensures SegmentFits(CodecOf(json, columns), groups)
  {
    assert GoodGroups(o, groups);
    hide Segment, BlocksOf, WellTyped, AllCanonical, Flatten, Concat, GoodGroups, StoredFits, BlocksBound, Readable;
    hide Lossless, FramesFit;
    RoomyFrames(json, columns, o, groups, 0, 0);
    GroupsLossless(json, columns, o, groups, 0, 0);
  }

  /** With such options rolled segments of column blocks always replay to the rows. */
  lemma {:induction false} RoomyRolling(crc: Checksum, json: JsonLibrary, columns: seq<ColumnSchema>, o: BlockOptions,
                                        r: RollingOptions,
                                        raws: seq<Line>)
    returns (contents: seq<Line>)
    requires Roomy(columns, o) && WellTyped(json) && Roll(crc, CodecOf(json, columns), o, r, raws, true).Some?
    requires NormalRows(raws).Some? ==>
               AllCanonical(json, columns, NormalRows(raws).value) && |Concat(NormalRows(raws).value)| < U64_LIMIT
    ensures Contents(raws, contents) && NormalRows(raws) == Some(Terminated(contents))
    ensures var segments := Roll(crc, CodecOf(json, columns), o, r, raws, true).value;
            && ReplayAll(crc, CodecOf(json, columns), segments) == Some(Concat(Terminated(contents)))
            && forall k :: 0 <= k < |segments| ==> GoodSegment(crc, o, segments[k])
  {
    hide Roll, ReplayAll, GoodSegment, WellTyped, AllCanonical, NormalRows, Contents, Concat, Flatten, Rows, Segment;
    hide SegmentFits, Lossless, ReadableGroups;
    hide BlocksBound;
    var codec := CodecOf(json, columns);
    var segments := Roll(crc, codec, o, r, raws, true).value;
    var plan: seq<seq<seq<Line>>>;
    plan, contents := RollingConserves(crc, codec, o, r, raws);
    forall k | 0 <= k < |plan| ensures SegmentFits(codec, plan[k]) && Lossless(codec, ReadableGroups(codec, plan[k], 0, 0)) {
      SegmentRows(json, columns, plan, k);
      RoomySegment(crc, json, columns, o, r, segments[k], plan[k]);
    }
  }

  /** The default options have room for every schema of up to 15 columns. */
  lemma {:induction false} DefaultsAreRoomy(columns: seq<ColumnSchema>)
    requires |columns| <= 15 && forall k :: 0 <= k < |columns| ==> |columns[k].name| < 0x1_0000
    ensures Roomy(columns, BlockOptions(10_000, 8 * 1024 * 1024))
  {
    BoundOf(columns, BlockOptions(10_000, 8 * 1024 * 1024));
  }

  lemma {:induction false} BoundOf(columns: seq<ColumnSchema>, o: BlockOptions)
    requires forall k :: 0 <= k < |columns| ==> |columns[k].name| < 0x1_0000
    ensures BlocksBound(columns, o) <= |columns| * (0x1_0000 + 19 + PayloadBound(o))
    decreases |columns|
  {
    hide PayloadBound;
    if columns != [] {
      BoundOf(columns[1..], o);
      var each := 0x1_0000 + 19 + PayloadBound(o);
      assert |columns| * each == each + |columns[1..]| * each;
    }
  }
}
