/**
  The column blocks inside a CMP2 block (crates/compact-core/src/io/mod.rs): a concrete row codec, lossless on
  lines that are the canonical rendering of what they parse to.
*/
module ColumnBlocks {
  import opened Wrappers
  import opened Bytes
  import opened Limits
  import opened Lines
  import opened Writer
  import opened ColumnSelect
  import Columns
  import AppendLog
  import Numbers
  import Rle
  import Strings
  import Utf8
  import Varint

  type Text = seq<byte>
  type ColumnSchema = Columns.ColumnSchema

  /** JSON parsing of one line to an object, and the rendering of named values as one object. */
  datatype JsonLibrary = JsonLibrary(parse: Line -> Option<Row>, render: seq<(Text, Json)> -> Line)

  /** The values of one column. */
  datatype Values = U64s(numbers: seq<nat>) | Strings(texts: seq<Text>)
  {
    function Count(): nat {
      match this case U64s(v) => |v| case Strings(v) => |v|
    }

    function At(k: nat): Json
      requires k < Count()
    {
      match this case U64s(v) => Number(v[k]) case Strings(v) => String(v[k])
    }
  }

  function BlockMagic(): (m: seq<byte>) ensures |m| == 4 { Magic(0x43, 0x42, 0x4C, 0x31) }

  /** `supported_columns`: required columns under the three codecs of this format. */
  predicate Supported(c: ColumnSchema) {
    && c.name != [] && !c.nullable
    && ((c.valueType == Columns.NumberType && c.codec == Columns.DeltaVarint)
        || (c.valueType == Columns.TextType && (c.codec == Columns.Dictionary || c.codec == Columns.Rle)))
  }

  predicate SchemaOk(columns: seq<ColumnSchema>) {
    && columns != []
    && (forall k :: 0 <= k < |columns| ==> Supported(columns[k]))
    && forall i, j :: 0 <= i < j < |columns| ==> columns[i].name != columns[j].name
  }

  function CodecId(c: ColumnSchema): byte {
    if c.codec == Columns.Dictionary then 0x05 else if c.codec == Columns.DeltaVarint then 0x02 else 0x01
  }

  // ----- encoding -----

  function ParseAll(json: JsonLibrary, lines: seq<Line>): Option<seq<Row>> {
    if lines == [] then Some([])
    else
      match json.parse(lines[0])
      case None => None
      case Some(row) => match ParseAll(json, lines[1..]) case None => None case Some(rest) => Some([row] + rest)
  }

  predicate Holds(c: ColumnSchema, row: Row) {
    c.name in row && if c.valueType == Columns.NumberType then row[c.name].Number? else row[c.name].String?
  }

  /** The values of a column; None when a row misses it or has another type. */
  function Collect(c: ColumnSchema, rows: seq<Row>): Option<Values> {
    if exists k :: 0 <= k < |rows| && !Holds(c, rows[k]) then None
    else if c.valueType == Columns.NumberType then
      Some(U64s(seq(|rows|, k requires 0 <= k < |rows| && Holds(c, rows[k]) && c.valueType == Columns.NumberType => rows[k][c.name].n)))
    else
      Some(Strings(seq(|rows|, k requires 0 <= k < |rows| && Holds(c, rows[k]) && c.valueType != Columns.NumberType => rows[k][c.name].t)))
  }

  function EncodeValues(c: ColumnSchema, values: Values): Option<seq<byte>> {
    match values
    case U64s(v) =>
      (match Numbers.DeltasFrom(0, v) case None => None case Some(deltas) => Some(Varint.EncodeAll(deltas)))
    case Strings(v) =>
      if c.codec == Columns.Dictionary then Some(Strings.DictionaryBytes(Strings.DictionaryOf(v), Strings.Ids(v)))
      else Some(Rle.Encode(Strings.EncodeStored(v)))
  }

  function BlockBytes(c: ColumnSchema, rows: nat, payload: seq<byte>): seq<byte> {
    (Le16(|c.name|) + c.name) + ([CodecId(c)] + (Le64(rows) + (Le64(|payload|) + payload)))
  }

  function EncodeBlocks(columns: seq<ColumnSchema>, rows: seq<Row>): Option<seq<byte>> {
    if columns == [] then Some([])
    else
      match Collect(columns[0], rows)
      case None => None
      case Some(values) =>
        match EncodeValues(columns[0], values)
        case None => None
        case Some(payload) =>
          if |columns[0].name| >= 0x1_0000 then None
          else
            match EncodeBlocks(columns[1..], rows)
            case None => None
            case Some(rest) => Some(BlockBytes(columns[0], |rows|, payload) + rest)
  }

  /** `encode_jsonl_row_group` */
  function Encode(json: JsonLibrary, columns: seq<ColumnSchema>, lines: seq<Line>): Option<seq<byte>> {
    if !SchemaOk(columns) || |columns| >= U32_LIMIT then None
    else
      match ParseAll(json, lines)
      case None => None
      case Some(rows) =>
        match EncodeBlocks(columns, rows) case None => None case Some(blocks) => Some((BlockMagic() + Le32(|columns|)) + blocks)
  }

  // ----- decoding -----

  /** Strings until the data ends. */
  function ReadAll(data: seq<byte>, pos: nat): Option<seq<Text>>
    decreases |data| - pos
  {
    if pos >= |data| then Some([])
    else
      match Strings.ReadText(data, pos)
      case None => None
      case Some((text, next)) =>
        if next <= pos then None
        else match ReadAll(data, next) case None => None case Some(rest) => Some([text] + rest)
  }

  function DecodeDictionary(payload: seq<byte>): Option<seq<Text>> {
    match Varint.Read(payload, 0)
    case None => None
    case Some((size, next)) =>
      match Strings.ReadTexts(payload, next, size)
      case None => None
      case Some((d, cursor)) =>
        match Varint.DecodeFrom(payload, cursor) case None => None case Some(ids) => Strings.LookUp(d, ids)
  }

  function DecodeValues(c: ColumnSchema, payload: seq<byte>): Option<Values> {
    if c.valueType == Columns.NumberType then
      match Varint.DecodeFrom(payload, 0)
      case None => None
      case Some(deltas) => match Numbers.SumsFrom(0, deltas) case None => None case Some(v) => Some(U64s(v))
    else if c.codec == Columns.Dictionary then
      match DecodeDictionary(payload) case None => None case Some(v) => Some(Strings(v))
    else
      match Rle.Decode(payload, MAX_DECODED_BYTES)
      case None => None
      case Some(raw) => match ReadAll(raw, 0) case None => None case Some(v) => Some(Strings(v))
  }

  /** One block with the expected name and codec: its row count, its values and the position behind it. */
  function ReadBlock(data: seq<byte>, pos: nat, c: ColumnSchema): Option<(nat, Values, nat)> {
    if pos + 2 > |data| then None
    else
      var p := pos + 2 + Field(data, pos, 2);
      if p + 17 > |data| || data[pos + 2..p] != c.name || data[p] != CodecId(c) then None
      else
        var end := p + 17 + Field(data, p + 9, 8);
        if end > |data| then None
        else
          match DecodeValues(c, data[p + 17..end])
          case None => None
          case Some(values) => if values.Count() != Field(data, p + 1, 8) then None else Some((Field(data, p + 1, 8), values, end))
  }

  function ReadBlocks(data: seq<byte>, pos: nat, columns: seq<ColumnSchema>,
                      expected: Option<nat>): Option<(seq<Values>, nat)>
    decreases |columns|
  {
    if columns == [] then Some(([], pos))
    else
      match ReadBlock(data, pos, columns[0])
      case None => None
      case Some((rows, values, next)) =>
        if expected.Some? && expected.value != rows then None
        else
          match ReadBlocks(data, next, columns[1..], Some(rows)) case None => None case Some((rest, end)) => Some(([values] + rest, end))
  }

  /** The named values of row `k`. */
  function RowAt(columns: seq<ColumnSchema>, all: seq<Values>, k: nat): Option<seq<(Text, Json)>> {
    if columns == [] || all == [] then Some([])
    else if k >= all[0].Count() then None
    else match RowAt(columns[1..], all[1..], k) case None => None case Some(rest) => Some([(columns[0].name, all[0].At(k))] + rest)
  }

  function Render(json: JsonLibrary, columns: seq<ColumnSchema>, all: seq<Values>, n: nat): Option<seq<byte>> {
    if n == 0 then Some([])
    else
      match Render(json, columns, all, n - 1)
      case None => None
      case Some(front) =>
        match RowAt(columns, all, n - 1) case None => None case Some(row) => Some(front + (json.render(row) + [LF]))
  }

  /** `decode_column_blocks` and the rendering behind it. */
  function Decode(json: JsonLibrary, columns: seq<ColumnSchema>, data: seq<byte>): Option<seq<byte>> {
    if !SchemaOk(columns) || |data| < 8 || data[..4] != BlockMagic() || Field(data, 4, 4) != |columns| then None
    else
      match ReadBlocks(data, 8, columns, None)
      case None => None
      case Some((all, end)) => if end != |data| || all == [] then None else Render(json, columns, all, all[0].Count())
  }

  function CodecOf(json: JsonLibrary, columns: seq<ColumnSchema>): RowCodec {
    RowCodec(lines => Encode(json, columns, lines), data => Decode(json, columns, data))
  }

  // ----- columns decode to themselves -----

  ghost predicate ValuesTyped(values: Values) {
    match values case U64s(v) => AllU64(v) case Strings(v) => Strings.AllSized(v) && Utf8.AllValid(v)
  }

  /** Run-length columns have to stay below the limit on decoded bytes. */
  predicate WithinLimit(c: ColumnSchema, values: Values) {
    c.codec == Columns.Rle && values.Strings? ==> |Strings.EncodeStored(values.texts)| <= MAX_DECODED_BYTES
  }

  lemma {:induction false} ReadsAll(data: seq<byte>, pos: nat, values: seq<Text>)
    requires |data| < U64_LIMIT && Utf8.AllValid(values) && At(data, pos, Strings.EncodeStored(values))
    requires pos + |Strings.EncodeStored(values)| == |data|
    ensures ReadAll(data, pos) == Some(values)
    decreases |values|
  {
    hide At, Utf8.AllValid, Utf8.Valid, Strings.ReadText, Varint.Encode;
    if values != [] {
      var first := Varint.Encode(|values[0]|) + values[0];
      AtConcat(data, pos, first, Strings.EncodeStored(values[1..]));
      Utf8.AllValidCons(values);
      Strings.ReadTextIff(data, pos, values[0], pos + |first|);
      ReadsAll(data, pos + |first|, values[1..]);
      assert values == [values[0]] + values[1..];
    }
  }

  lemma {:induction false} ReadsDictionary(values: seq<Text>)
    requires Utf8.AllValid(values)
    requires |Strings.DictionaryBytes(Strings.DictionaryOf(values), Strings.Ids(values))| < U64_LIMIT
    ensures DecodeDictionary(Strings.DictionaryBytes(Strings.DictionaryOf(values), Strings.Ids(values))) == Some(values)
  {
    hide Strings.DictionaryOf, Varint.Encode, Varint.EncodeAll, Strings.EncodeStored, Strings.ReadTexts;
    hide Varint.DecodeFrom, Varint.Read, Utf8.AllValid, At, Strings.LookUp;
    var (d, ids) := (Strings.DictionaryOf(values), Strings.Ids(values));
    var data := Strings.DictionaryBytes(d, ids);
    var (a, b, c) := (Varint.Encode(|d|), Strings.EncodeStored(d), Varint.EncodeAll(ids));
    Strings.DictionarySound(values);
    AtWhole(data);
    AtConcat(data, 0, a, b + c);
    AtConcat(data, |a|, b, c);
    Strings.EncodeAllSize(ids);
    Varint.ReadIff(data, 0, |d|, |a|);
    Strings.ReadTextsIff(data, |a|, d, |a| + |b|);
    IdsFit(values);
    Varint.DecodeFromIff(data, |a| + |b|, ids);
    Strings.LookUpIds(values);
  }

  lemma {:induction false} IdsFit(values: seq<Text>)
    requires |values| < U64_LIMIT
    ensures AllU64(Strings.Ids(values))
  {
    Strings.DictionaryCoversAll(values);
  }

  lemma {:induction false} ValuesRoundTrip(c: ColumnSchema, values: Values)
    requires Supported(c) && ValuesTyped(values) && WithinLimit(c, values) && (values.U64s? <==> c.valueType == Columns.NumberType)
    requires EncodeValues(c, values).Some? && |EncodeValues(c, values).value| < U64_LIMIT
    ensures DecodeValues(c, EncodeValues(c, values).value) == Some(values)
  {
    hide Varint.DecodeFrom, Varint.EncodeAll, Numbers.DeltasFrom, Numbers.SumsFrom, AllU64, DecodeDictionary;
    hide Strings.DictionaryBytes, Strings.DictionaryOf, Strings.Ids, Rle.Encode, Rle.Decode, Strings.EncodeStored;
    hide ReadAll, Utf8.AllValid, Strings.AllSized;
    if values.U64s? {
      var deltas := Numbers.DeltasFrom(0, values.numbers).value;
      Numbers.DeltasLength(0, values.numbers);
      Numbers.VarintDeltas(deltas);
      Numbers.SumsIff(0, deltas, values.numbers);
    } else if c.codec == Columns.Dictionary {
      ReadsDictionary(values.texts);
    } else {
      var raw := Strings.EncodeStored(values.texts);
      Rle.RoundTrip(raw, MAX_DECODED_BYTES);
      AtWhole(raw);
      ReadsAll(raw, 0, values.texts);
    }
  }

  // ----- blocks -----

  lemma {:induction false} ReadsBlock(data: seq<byte>, pos: nat, c: ColumnSchema, values: Values, payload: seq<byte>)
    requires |data| < U64_LIMIT && At(data, pos, BlockBytes(c, values.Count(), payload)) && |c.name| < 0x1_0000
    requires DecodeValues(c, payload) == Some(values) && values.Count() < U64_LIMIT
    ensures ReadBlock(data, pos, c) == Some((values.Count(), values, pos + |BlockBytes(c, values.Count(), payload)|))
  {
    hide At, DecodeValues, CodecId, Le;
    Pow256Values();
    var (n, w, l) := (Le16(|c.name|), Le64(values.Count()), Le64(|payload|));
    var p := pos + 2 + |c.name|;
    AtConcat(data, pos, n + c.name, [CodecId(c)] + (w + (l + payload)));
    AtConcat(data, pos, n, c.name);
    AtConcat(data, p, [CodecId(c)], w + (l + payload));
    AtConcat(data, p + 1, w, l + payload);
    AtConcat(data, p + 9, l, payload);
    AtInside(data, pos + 2, c.name);
    AtInside(data, p, [CodecId(c)]);
    AtInside(data, p + 17, payload);
    AtField(data, pos, 2, |c.name|);
    AtField(data, p + 1, 8, values.Count());
    AtField(data, p + 9, 8, |payload|);
    assert data[p..p + 1][0] == data[p];
  }

  function CollectAll(columns: seq<ColumnSchema>, rows: seq<Row>): (all: seq<Values>)
    ensures |all| <= |columns|
  {
    if columns == [] then []
    else match Collect(columns[0], rows) case None => [] case Some(v) => [v] + CollectAll(columns[1..], rows)
  }

  /** Every value of these rows is in range, and every run-length column within its limit. */
  ghost predicate Fit(columns: seq<ColumnSchema>, rows: seq<Row>) {
    forall c, v :: c in columns && Collect(c, rows) == Some(v) ==> ValuesTyped(v) && WithinLimit(c, v)
  }

  lemma {:induction false} CollectKind(c: ColumnSchema, rows: seq<Row>)
    requires Collect(c, rows).Some?
    ensures Collect(c, rows).value.Count() == |rows|
    ensures Collect(c, rows).value.U64s? <==> c.valueType == Columns.NumberType
    ensures forall k :: 0 <= k < |rows| ==> Holds(c, rows[k]) && Collect(c, rows).value.At(k) == rows[k][c.name]
  {
  }

  ghost predicate AllSupported(columns: seq<ColumnSchema>) {
    forall c :: c in columns ==> Supported(c)
  }

  lemma {:induction false} SupportedFirst(columns: seq<ColumnSchema>)
    requires AllSupported(columns) && columns != []
    ensures Supported(columns[0]) && AllSupported(columns[1..])
  {
    hide Supported;
    assert columns[0] in columns;
  }

  /** The first block and the rest. */
  lemma {:induction false} EncodedFirst(columns: seq<ColumnSchema>, rows: seq<Row>)
    requires columns != [] && EncodeBlocks(columns, rows).Some?
    ensures Collect(columns[0], rows).Some? && EncodeValues(columns[0], Collect(columns[0], rows).value).Some?
    ensures EncodeBlocks(columns[1..], rows).Some? && |columns[0].name| < 0x1_0000
    ensures var payload := EncodeValues(columns[0], Collect(columns[0], rows).value).value;
            EncodeBlocks(columns, rows).value == BlockBytes(columns[0], |rows|, payload) + EncodeBlocks(columns[1..], rows).value
    ensures CollectAll(columns, rows) == [Collect(columns[0], rows).value] + CollectAll(columns[1..], rows)
  {
    hide BlockBytes, EncodeValues, Collect;
  }

  lemma {:induction false} ReadsFirst(data: seq<byte>, pos: nat, columns: seq<ColumnSchema>, expected: Option<nat>,
                                      block: (nat, Values, nat),
                                      rest: (seq<Values>, nat))
    requires columns != [] && ReadBlock(data, pos, columns[0]) == Some(block) && (expected.Some? ==> expected.value == block.0)
    requires ReadBlocks(data, block.2, columns[1..], Some(block.0)) == Some(rest)
    ensures ReadBlocks(data, pos, columns, expected) == Some(([block.1] + rest.0, rest.1))
  {
    hide ReadBlock;
  }

  lemma {:induction false} ReadsBlocks(data: seq<byte>, pos: nat, columns: seq<ColumnSchema>, rows: seq<Row>,
                                       expected: Option<nat>)
    requires |data| < U64_LIMIT && |rows| < U64_LIMIT && AllSupported(columns) && Fit(columns, rows)
    requires EncodeBlocks(columns, rows).Some? && At(data, pos, EncodeBlocks(columns, rows).value)
    requires expected.Some? ==> expected.value == |rows|
    ensures ReadBlocks(data, pos, columns, expected) == Some((CollectAll(columns, rows), pos + |EncodeBlocks(columns, rows).value|))
    ensures |CollectAll(columns, rows)| == |columns|
    decreases |columns|
  {
    NoBlocks(data, pos, rows, expected);
    hide AllSupported;
    hide At, BlockBytes, ReadBlock, ReadBlocks, EncodeValues, EncodeBlocks, Collect, CollectAll, Supported, Fit;
    hide ValuesTyped, WithinLimit;
    if columns != [] {
      var c := columns[0];
      SupportedFirst(columns);
      EncodedFirst(columns, rows);
      var values := Collect(c, rows).value;
      var payload := EncodeValues(c, values).value;
      var (block, rest) := (BlockBytes(c, |rows|, payload), EncodeBlocks(columns[1..], rows).value);
      AtConcat(data, pos, block, rest);
      FitRest(columns, rows);
      ReadsColumn(data, pos, c, rows);
      var next := pos + |block|;
      ReadsBlocks(data, next, columns[1..], rows, Some(|rows|));
      ReadsFirst(data, pos, columns, expected, (|rows|, values, next), (CollectAll(columns[1..], rows), next + |rest|));
    }
  }

  lemma {:induction false} ReadsColumn(data: seq<byte>, pos: nat, c: ColumnSchema, rows: seq<Row>)
    requires |data| < U64_LIMIT && |rows| < U64_LIMIT && Supported(c) && |c.name| < 0x1_0000
    requires Collect(c, rows).Some? && EncodeValues(c, Collect(c, rows).value).Some?
    requires ValuesTyped(Collect(c, rows).value) && WithinLimit(c, Collect(c, rows).value)
    requires At(data, pos, BlockBytes(c, |rows|, EncodeValues(c, Collect(c, rows).value).value))
    ensures var block := BlockBytes(c, |rows|, EncodeValues(c, Collect(c, rows).value).value);
            ReadBlock(data, pos, c) == Some((|rows|, Collect(c, rows).value, pos + |block|))
  {
    hide At, BlockBytes, ReadBlock, EncodeValues, Collect, Supported, ValuesTyped, WithinLimit;
    CollectKind(c, rows);
    var values := Collect(c, rows).value;
    var payload := EncodeValues(c, values).value;
    BlockLonger(c, |rows|, payload);
    AtInside(data, pos, BlockBytes(c, |rows|, payload));
    ValuesRoundTrip(c, values);
    ReadsBlock(data, pos, c, values, payload);
  }

  lemma {:induction false} NoBlocks(data: seq<byte>, pos: nat, rows: seq<Row>, expected: Option<nat>)
    ensures ReadBlocks(data, pos, [], expected) == Some(([], pos)) && EncodeBlocks([], rows) == Some([]) && CollectAll([], rows) == []
  {
  }

  lemma {:induction false} FitRest(columns: seq<ColumnSchema>, rows: seq<Row>)
    requires columns != [] && Fit(columns, rows) && Collect(columns[0], rows).Some?
    ensures Fit(columns[1..], rows)
    ensures ValuesTyped(Collect(columns[0], rows).value) && WithinLimit(columns[0], Collect(columns[0], rows).value)
  {
    hide Collect, ValuesTyped, WithinLimit;
    assert columns[0] in columns;
  }

  lemma {:induction false} BlockLonger(c: ColumnSchema, rows: nat, payload: seq<byte>)
    ensures |payload| <= |BlockBytes(c, rows, payload)|
  {
  }

  // ----- rows -----

  /** The named values of a parsed row, in column order. */
  function Pairs(columns: seq<ColumnSchema>, row: Row): seq<(Text, Json)> {
    if columns == [] then [] else [(columns[0].name, Shown(columns[0].name, row))] + Pairs(columns[1..], row)
  }

  lemma {:induction false} RowIs(columns: seq<ColumnSchema>, rows: seq<Row>, k: nat)
    requires EncodeBlocks(columns, rows).Some? && k < |rows|
    ensures RowAt(columns, CollectAll(columns, rows), k) == Some(Pairs(columns, rows[k]))
    decreases |columns|
  {
    hide Collect, EncodeValues, BlockBytes;
    if columns != [] {
      CollectKind(columns[0], rows);
      RowIs(columns[1..], rows, k);
    }
  }

  /** A line that is the rendering of its own content, with every column of the schema and nothing else. */
  predicate Canonical(json: JsonLibrary, columns: seq<ColumnSchema>, line: Line) {
    && json.parse(Body(line)).Some?
    && line == json.render(Pairs(columns, json.parse(Body(line)).value)) + [LF]
  }

  lemma {:induction false} RenderIs(json: JsonLibrary, columns: seq<ColumnSchema>, rows: seq<Row>, lines: seq<Line>,
                                    n: nat)
    requires EncodeBlocks(columns, rows).Some? && n <= |rows| == |lines|
    requires forall k :: 0 <= k < |lines| ==> lines[k] == json.render(Pairs(columns, rows[k])) + [LF]
    ensures Render(json, columns, CollectAll(columns, rows), n) == Some(Concat(lines[..n]))
    decreases n
  {
    hide EncodeBlocks, CollectAll, RowAt, Pairs, Concat;
    if n > 0 {
      RenderIs(json, columns, rows, lines, n - 1);
      RowIs(columns, rows, n - 1);
      ConcatPush(lines[..n - 1], lines[n - 1]);
      assert lines[..n] == lines[..n - 1] + [lines[n - 1]];
    } else {
      NoLines(lines);
    }
  }

  lemma {:induction false} NoLines(lines: seq<Line>)
    ensures Concat(lines[..0]) == []
  {
  }

  lemma {:induction false} ParsedAt(json: JsonLibrary, lines: seq<Line>, k: nat)
    requires ParseAll(json, lines).Some?
    ensures |ParseAll(json, lines).value| == |lines|
    ensures k < |lines| ==> json.parse(lines[k]) == Some(ParseAll(json, lines).value[k])
    decreases |lines|
  {
    if lines != [] {
      ParsedAt(json, lines[1..], if k > 0 then k - 1 else 0);
    }
  }

  lemma {:induction false} BodiesAt(lines: seq<Line>, k: nat)
    ensures |Bodies(lines)| == |lines|
    ensures k < |lines| ==> Bodies(lines)[k] == Body(lines[k])
    decreases |lines|
  {
    if lines != [] {
      BodiesAt(lines[1..], if k > 0 then k - 1 else 0);
    }
  }

  /** Each row as one line of JSON: the columns of the schema, in their order, and nothing else. */
  function Renderings(json: JsonLibrary, columns: seq<ColumnSchema>, rows: seq<Row>): (lines: seq<Line>)
    ensures |lines| == |rows|
  {
    seq(|rows|, k requires 0 <= k < |rows| => json.render(Pairs(columns, rows[k])) + [LF])
  }

  /** The cells of a rendered row are the fields of the row. */
  lemma {:induction false} PairsAt(columns: seq<ColumnSchema>, row: Row, j: nat)
    ensures |Pairs(columns, row)| == |columns|
    ensures j < |columns| ==>
              var name := columns[j].name;
              Pairs(columns, row)[j] == (name, if name in row then row[name] else Null)
    decreases |columns|
  {
    if columns != [] {
      PairsAt(columns[1..], row, if j > 0 then j - 1 else 0);
    }
  }

  /** Whatever lines a row group was made of, it decodes to one line for each of them: the rendering of the row it holds. */
  lemma {:induction false} GroupRenders(json: JsonLibrary, columns: seq<ColumnSchema>, lines: seq<Line>)
    requires lines != [] && |lines| < U64_LIMIT
    requires Encode(json, columns, lines).Some? && |Encode(json, columns, lines).value| < U64_LIMIT
    requires Fit(columns, ParseAll(json, lines).value)
    ensures Decode(json, columns, Encode(json, columns, lines).value)
         == Some(Concat(Renderings(json, columns, ParseAll(json, lines).value)))
  {
    hide At, ParseAll, EncodeBlocks, ReadBlocks, Fit, Pairs, Render, CollectAll, Bodies, Body, Concat, Le, Supported;
    Pow256Values();
    var data := Encode(json, columns, lines).value;
    var rows := ParseAll(json, lines).value;
    var blocks := EncodeBlocks(columns, rows).value;
    ParsedAt(json, lines, 0);
    AtWhole(data);
    AtConcat(data, 0, BlockMagic() + Le32(|columns|), blocks);
    AtConcat(data, 0, BlockMagic(), Le32(|columns|));
    AtField(data, 4, 4, |columns|);
    AtInside(data, 0, BlockMagic());
    ReadsBlocks(data, 8, columns, rows, None);
    FirstCount(columns, rows);
    var shown := Renderings(json, columns, rows);
    RenderIs(json, columns, rows, shown, |rows|);
    assert shown[..|rows|] == shown;
  }

  /** A row group of canonical lines decodes to the same text. */
  lemma {:induction false} GroupRoundTrip(json: JsonLibrary, columns: seq<ColumnSchema>, group: seq<Line>)
    requires group != [] && |group| < U64_LIMIT && forall k :: 0 <= k < |group| ==> Canonical(json, columns, group[k])
    requires Encode(json, columns, Bodies(group)).Some? && |Encode(json, columns, Bodies(group)).value| < U64_LIMIT
    requires Fit(columns, ParseAll(json, Bodies(group)).value)
    ensures Decode(json, columns, Encode(json, columns, Bodies(group)).value) == Some(Concat(group))
  {
    hide ParseAll, Fit, Pairs, Bodies, Body, Concat, EncodeBlocks, Decode;
    var rows := ParseAll(json, Bodies(group)).value;
    BodiesAt(group, 0);
    ParsedAt(json, Bodies(group), 0);
    forall k | 0 <= k < |group| ensures group[k] == Renderings(json, columns, rows)[k] {
      BodiesAt(group, k);
      ParsedAt(json, Bodies(group), k);
      assert Canonical(json, columns, group[k]);
    }
    assert group == Renderings(json, columns, rows);
    NotEmpty(group);
    GroupRenders(json, columns, Bodies(group));
  }

  lemma {:induction false} NotEmpty(group: seq<Line>)
    requires group != []
    ensures Bodies(group) != []
  {
  }

  // ----- when a row group can be encoded -----

  /** Every row has the column, with a value of its type; its numbers do not decrease; its name has a 16-bit length. */
  ghost predicate ColumnFits(c: ColumnSchema, rows: seq<Row>) {
    && |c.name| < 0x1_0000
    && (forall k :: 0 <= k < |rows| ==> Holds(c, rows[k]))
    && (c.valueType == Columns.NumberType ==>
          forall i, j :: 0 <= i < j < |rows| ==> rows[i][c.name].n <= rows[j][c.name].n)
  }

  lemma {:induction false} ColumnExists(c: ColumnSchema, rows: seq<Row>)
    ensures ColumnFits(c, rows) <==>
            && |c.name| < 0x1_0000 && Collect(c, rows).Some? && EncodeValues(c, Collect(c, rows).value).Some?
  {
    hide Numbers.DeltasFrom, Numbers.NonDecreasing, Strings.DictionaryBytes, Rle.Encode;
    if Collect(c, rows).Some? {
      CollectKind(c, rows);
      var values := Collect(c, rows).value;
      if values.U64s? {
        Numbers.DeltasExist(0, values.numbers);
        Numbers.NonDecreasingFront(0, values.numbers);
        NumbersInOrder(c, rows, values.numbers);
      }
    } else {
      assert !forall k :: 0 <= k < |rows| ==> Holds(c, rows[k]);
    }
  }

  lemma {:induction false} NumbersInOrder(c: ColumnSchema, rows: seq<Row>, numbers: seq<nat>)
    requires Collect(c, rows) == Some(U64s(numbers)) && c.valueType == Columns.NumberType
    requires |numbers| == |rows| && forall k :: 0 <= k < |rows| ==> Holds(c, rows[k]) && Number(numbers[k]) == rows[k][c.name]
    ensures Numbers.NonDecreasing(numbers) <==> forall i, j :: 0 <= i < j < |rows| ==> rows[i][c.name].n <= rows[j][c.name].n
  {
    hide Collect;
  }

  lemma {:induction false} BlocksExist(columns: seq<ColumnSchema>, rows: seq<Row>)
    ensures EncodeBlocks(columns, rows).Some? <==> forall c :: c in columns ==> ColumnFits(c, rows)
    decreases |columns|
  {
    if columns != [] {
      hide ColumnFits, Collect, EncodeValues, BlockBytes;
      ColumnExists(columns[0], rows);
      BlocksExist(columns[1..], rows);
      assert columns == [columns[0]] + columns[1..];
    }
  }

  lemma {:induction false} AllParse(json: JsonLibrary, lines: seq<Line>)
    ensures ParseAll(json, lines).Some? <==> forall k :: 0 <= k < |lines| ==> json.parse(lines[k]).Some?
    decreases |lines|
  {
    if lines != [] {
      AllParse(json, lines[1..]);
      assert lines == [lines[0]] + lines[1..];
    }
  }

  /** A row group is encoded exactly when the schema is supported, every line parses, and every column fits its rows. */
  lemma {:induction false} EncodeExists(json: JsonLibrary, columns: seq<ColumnSchema>, lines: seq<Line>)
    ensures Encode(json, columns, lines).Some? <==>
            && SchemaOk(columns) && |columns| < U32_LIMIT
            && (forall k :: 0 <= k < |lines| ==> json.parse(lines[k]).Some?)
            && ParseAll(json, lines).Some? && forall c :: c in columns ==> ColumnFits(c, ParseAll(json, lines).value)
  {
    hide ParseAll, EncodeBlocks, ColumnFits, SchemaOk;
    AllParse(json, lines);
    if ParseAll(json, lines).Some? {
      BlocksExist(columns, ParseAll(json, lines).value);
    }
  }

  lemma {:induction false} FirstCount(columns: seq<ColumnSchema>, rows: seq<Row>)
    requires columns != [] && EncodeBlocks(columns, rows).Some?
    ensures CollectAll(columns, rows) != [] && CollectAll(columns, rows)[0].Count() == |rows|
  {
    hide EncodeValues, BlockBytes, Collect;
    CollectKind(columns[0], rows);
  }

  // ----- row groups of a run -----

  ghost predicate AllCanonical(json: JsonLibrary, columns: seq<ColumnSchema>, lines: seq<Line>) {
    forall k :: 0 <= k < |lines| ==> Canonical(json, columns, lines[k])
  }

  /** What the readers ask of the row groups of one run. */
  ghost predicate GroupsFit(json: JsonLibrary, columns: seq<ColumnSchema>, groups: seq<seq<Line>>) {
    forall k :: 0 <= k < |groups| && Encode(json, columns, Bodies(groups[k])).Some? ==>
      && |Encode(json, columns, Bodies(groups[k])).value| < U64_LIMIT
      && Fit(columns, ParseAll(json, Bodies(groups[k])).value)
  }

  lemma {:induction false} CanonicalGroup(json: JsonLibrary, columns: seq<ColumnSchema>, groups: seq<seq<Line>>, k: nat)
    requires k < |groups| && AllCanonical(json, columns, Flatten(groups))
    ensures AllCanonical(json, columns, groups[k])
    decreases k
  {
    hide Canonical;
    var (first, rest) := (groups[0], Flatten(groups[1..]));
    var all := Flatten(groups);
    if k == 0 {
      forall i | 0 <= i < |first| ensures Canonical(json, columns, first[i]) {
        assert all[i] == first[i];
      }
    } else {
      forall i | 0 <= i < |rest| ensures Canonical(json, columns, rest[i]) {
        assert all[|first| + i] == rest[i];
      }
      CanonicalGroup(json, columns, groups[1..], k - 1);
    }
  }

  /** The column-block codec is lossless on row groups of canonical lines, whatever the JSON library does otherwise. */
  lemma {:induction false} ColumnBlocksLossless(json: JsonLibrary, columns: seq<ColumnSchema>, o: BlockOptions,
                                                groups: seq<seq<Line>>)
    requires o.maxRows < U64_LIMIT && GoodGroups(o, groups)
    requires AllCanonical(json, columns, Flatten(groups)) && GroupsFit(json, columns, groups)
    ensures AppendLog.Lossless(CodecOf(json, columns), groups)
  {
    hide Encode, Decode, Fit, Bodies, ParseAll, Canonical, Flatten, Concat, AllNormal;
    var codec := CodecOf(json, columns);
    forall k | 0 <= k < |groups| && codec.encode(Bodies(groups[k])).Some?
      ensures codec.decode(codec.encode(Bodies(groups[k])).value) == Some(Concat(groups[k]))
    {
      assert GoodGroup(o, groups[k]);
      CanonicalGroup(json, columns, groups, k);
      GroupRoundTrip(json, columns, groups[k]);
    }
  }
}
