/**
  Typed, nullable columns (crates/compact-core/src/io/v3.rs and crates/compact-core/src/codecs/v3): cells, their
  statistics, and the chunk of metadata and payload that stores them.
*/
module Columns {
  import opened Wrappers
  import opened Bytes
  import opened Limits
  import opened Bits
  import Bitmap
  import Numbers
  import Strings
  import Utf8

  type Text = seq<byte>

  datatype ValueType = BoolType | NumberType | TextType
  datatype Codec = Auto | BitmapCodec | Bitpack | DeltaBitpack | Dictionary | DeltaVarint | Prefix | Rle | Stored

  datatype ColumnSchema = ColumnSchema(name: Text, valueType: ValueType, codec: Codec, nullable: bool)

  datatype ColumnMetadata = ColumnMetadata(
    name: Text,
    valueType: ValueType,
    nullable: bool,
    codec: Codec,
    valueCount: nat,
    nullCount: nat,
    rawSize: nat,
    compressedSize: nat,
    codecMetadata: seq<byte>,
    statistics: seq<byte>)

  datatype Chunk = Chunk(metadata: ColumnMetadata, payload: seq<byte>)

  /** A decoded column: one cell per row, None for null. */
  datatype Column =
    | Bools(bools: seq<Option<bool>>)
    | Numbers(numbers: seq<Option<nat>>)
    | Texts(texts: seq<Option<Text>>)
  {
    function Rows(): nat {
      match this case Bools(c) => |c| case Numbers(c) => |c| case Texts(c) => |c|
    }

    function Type(): ValueType {
      match this case Bools(_) => BoolType case Numbers(_) => NumberType case Texts(_) => TextType
    }

    function Validity(): (bits: seq<bool>)
      ensures |bits| == Rows()
    {
      match this
      case Bools(c) => ValidityOf(c)
      case Numbers(c) => ValidityOf(c)
      case Texts(c) => ValidityOf(c)
    }
  }

  // ----- cells -----

  function ValidityOf<T>(cells: seq<Option<T>>): (bits: seq<bool>)
    ensures |bits| == |cells|
    ensures forall k :: 0 <= k < |cells| ==> bits[k] == cells[k].Some?
  {
    seq(|cells|, k requires 0 <= k < |cells| => cells[k].Some?)
  }

  function Present<T>(cells: seq<Option<T>>): seq<T> {
    if cells == [] then []
    else if cells[0].Some? then [cells[0].value] + Present(cells[1..])
    else Present(cells[1..])
  }

  /** The values put back at the valid rows. */
  function Restore<T>(validity: seq<bool>, values: seq<T>): Option<seq<Option<T>>>
    decreases |validity|
  {
    if validity == [] then Some([])
    else if !validity[0] then
      match Restore(validity[1..], values) case None => None case Some(rest) => Some([None] + rest)
    else if values == [] then None
    else
      match Restore(validity[1..], values[1..]) case None => None case Some(rest) => Some([Some(values[0])] + rest)
  }

  function CountTrue(bits: seq<bool>): (n: nat)
    ensures n <= |bits|
  {
    if bits == [] then 0 else Bit(bits[0]) + CountTrue(bits[1..])
  }

  lemma {:induction false} PresentCount<T>(cells: seq<Option<T>>)
    ensures |Present(cells)| == CountTrue(ValidityOf(cells))
  {
    if cells != [] {
      PresentCount(cells[1..]);
      assert ValidityOf(cells)[1..] == ValidityOf(cells[1..]);
    }
  }

  lemma {:induction false} RestoreOfCells<T>(cells: seq<Option<T>>)
    ensures Restore(ValidityOf(cells), Present(cells)) == Some(cells)
    decreases |cells|
  {
    if cells != [] {
      RestoreOfCells(cells[1..]);
      assert cells == [cells[0]] + cells[1..];
      assert ValidityOf(cells)[1..] == ValidityOf(cells[1..]);
      if cells[0].Some? {
        assert Present(cells)[1..] == Present(cells[1..]);
      }
    }
  }

  lemma {:induction false} CellsOfRestore<T>(validity: seq<bool>, values: seq<T>)
    requires Restore(validity, values).Some? && |values| == CountTrue(validity)
    ensures ValidityOf(Restore(validity, values).value) == validity && Present(Restore(validity, values).value) == values
    decreases |validity|
  {
    if validity != [] {
      var rest := if validity[0] then values[1..] else values;
      CellsOfRestore(validity[1..], rest);
      var cells := Restore(validity, values).value;
      assert cells[1..] == Restore(validity[1..], rest).value;
      assert validity == [validity[0]] + validity[1..];
      assert validity[0] ==> values == [values[0]] + values[1..];
    }
  }

  /** Validity and values determine the cells, and the cells them. */
  lemma {:induction false} RestoreIff<T>(validity: seq<bool>, values: seq<T>, cells: seq<Option<T>>)
    ensures Restore(validity, values) == Some(cells) && |values| == CountTrue(validity)
       <==> validity == ValidityOf(cells) && values == Present(cells)
  {
    hide Restore, ValidityOf, Present, CountTrue;
    PresentCount(cells);
    RestoreOfCells(cells);
    if Restore(validity, values) == Some(cells) && |values| == CountTrue(validity) {
      CellsOfRestore(validity, values);
    }
  }

  // ----- statistics -----

  datatype Statistics = NoStatistics | Range(min: nat, max: nat) | TrueCount(trues: nat) | Distinct(count: nat)

  function StatisticsBytes(s: Statistics): seq<byte> {
    match s
    case NoStatistics => [0]
    case Range(min, max) => [1] + (Le64(min) + Le64(max))
    case TrueCount(n) => [2] + Le64(n)
    case Distinct(n) => [3] + Le64(n)
  }

  function DecodeStatistics(data: seq<byte>): Option<Statistics> {
    if data == [0] then Some(NoStatistics)
    else if |data| == 17 && data[0] == 1 then
      var (min, max) := (Field(data, 1, 8), Field(data, 9, 8));
      if min > max then None else Some(Range(min, max))
    else if |data| == 9 && data[0] == 2 then Some(TrueCount(Field(data, 1, 8)))
    else if |data| == 9 && data[0] == 3 then Some(Distinct(Field(data, 1, 8)))
    else None
  }

  predicate StatisticsOk(s: Statistics) {
    match s
    case NoStatistics => true
    case Range(min, max) => min <= max < U64_LIMIT
    case TrueCount(n) => n < U64_LIMIT
    case Distinct(n) => n < U64_LIMIT
  }

  lemma {:induction false} StatisticsRoundTrip(s: Statistics)
    requires StatisticsOk(s)
    ensures DecodeStatistics(StatisticsBytes(s)) == Some(s)
  {
    hide Le;
    match s
    case NoStatistics =>
    case Range(min, max) =>
      Numbers.BaseMetadata(1, min, max);
    case TrueCount(n) => Numbers.CountMetadata([2], n);
    case Distinct(n) => Numbers.CountMetadata([3], n);
  }

  function Min(values: seq<nat>): nat
    requires values != []
  {
    if |values| == 1 then values[0]
    else var rest := Min(values[1..]); if values[0] < rest then values[0] else rest
  }

  lemma {:induction false} MinIsBound(values: seq<nat>, k: nat)
    requires k < |values|
    ensures Min(values) <= values[k]
  {
    if k > 0 {
      MinIsBound(values[1..], k - 1);
    }
  }

  function DistinctOf(values: seq<Text>): set<Text> {
    set v | v in values
  }

  lemma {:induction false} DistinctCount(values: seq<Text>)
    ensures |DistinctOf(values)| <= |values|
  {
    if values != [] {
      DistinctCount(values[1..]);
      assert DistinctOf(values) == {values[0]} + DistinctOf(values[1..]);
    }
  }

  function CountOf(cells: seq<Option<bool>>): (n: nat)
    ensures n <= |cells|
  {
    if cells == [] then 0 else (if cells[0] == Some(true) then 1 else 0) + CountOf(cells[1..])
  }

  lemma {:induction false} CountOfBound(cells: seq<Option<bool>>)
    ensures CountOf(cells) <= |Present(cells)|
  {
    if cells != [] {
      CountOfBound(cells[1..]);
    }
  }

  /** The statistics of the values a column really has. */
  function StatisticsOf(column: Column): Statistics {
    match column
    case Bools(c) => TrueCount(CountOf(c))
    case Numbers(c) => if Present(c) == [] then NoStatistics else Range(Min(Present(c)), Numbers.Max(Present(c)))
    case Texts(c) => Distinct(|DistinctOf(Present(c))|)
  }

  lemma {:induction false} PresentIff<T>(cells: seq<Option<T>>, value: T)
    ensures value in Present(cells) <==> Some(value) in cells
  {
    if cells != [] {
      PresentIff(cells[1..], value);
      assert cells == [cells[0]] + cells[1..];
    }
  }

  lemma {:induction false} MinIsMember(values: seq<nat>)
    requires values != []
    ensures Min(values) in values
  {
    if |values| > 1 {
      MinIsMember(values[1..]);
    }
  }

  /** The rows that hold `true`. */
  ghost function TrueRows(cells: seq<Option<bool>>): set<nat> {
    set k | 0 <= k < |cells| && cells[k] == Some(true)
  }

  lemma {:induction false} CountsTrueRows(cells: seq<Option<bool>>)
    ensures |TrueRows(cells)| == CountOf(cells)
    decreases |cells|
  {
    if cells == [] {
      assert TrueRows(cells) == {};
    } else {
      var (front, n) := (cells[..|cells| - 1], |cells| - 1);
      CountsTrueRows(front);
      CountOfPush(front, cells[n]);
      assert cells == front + [cells[n]];
      forall k ensures k in TrueRows(cells) <==> k in TrueRows(front) || (k == n && cells[n] == Some(true)) {
        assert 0 <= k < n ==> front[k] == cells[k];
      }
      if cells[n] == Some(true) {
        assert TrueRows(cells) == TrueRows(front) + {n};
      } else {
        assert TrueRows(cells) == TrueRows(front);
      }
    }
  }

  lemma {:induction false} CountOfPush(cells: seq<Option<bool>>, cell: Option<bool>)
    ensures CountOf(cells + [cell]) == CountOf(cells) + (if cell == Some(true) then 1 else 0)
  {
    if cells == [] {
      assert [] + [cell] == [cell] && [cell][1..] == [];
    } else {
      CountOfPush(cells[1..], cell);
      assert (cells + [cell])[1..] == cells[1..] + [cell];
    }
  }

  /** The different strings of a column. */
  ghost function StringsOf(cells: seq<Option<Text>>): set<Text> {
    set cell | cell in cells && cell.Some? :: cell.value
  }

  /**
    The statistics of a column: the least and the greatest number it has, if any; how many rows hold `true`; how many
    different strings it has.
  */
  lemma {:induction false} StatisticsMean(column: Column)
    ensures match (column, StatisticsOf(column))
            case (Bools(cells), TrueCount(n)) => n == |TrueRows(cells)|
            case (Numbers(cells), NoStatistics) => forall n: nat :: Some(n) !in cells
            case (Numbers(cells), Range(min, max)) =>
              Some(min) in cells && Some(max) in cells && forall n: nat :: Some(n) in cells ==> min <= n <= max
            case (Texts(cells), Distinct(n)) => n == |StringsOf(cells)|
            case (_, _) => false
  {
    hide Present, Min, Numbers.Max, CountOf;
    if column.Bools? {
      CountsTrueRows(column.bools);
    } else if column.Numbers? {
      NumbersMean(column.numbers);
    } else {
      forall t: Text ensures t in Present(column.texts) <==> Some(t) in column.texts {
        PresentIff(column.texts, t);
      }
      assert DistinctOf(Present(column.texts)) == StringsOf(column.texts);
    }
  }

  lemma {:induction false} NumbersMean(cells: seq<Option<nat>>)
    ensures Present(cells) == [] ==> forall n: nat :: Some(n) !in cells
    ensures Present(cells) != [] ==>
              var (min, max) := (Min(Present(cells)), Numbers.Max(Present(cells)));
              Some(min) in cells && Some(max) in cells && forall n: nat :: Some(n) in cells ==> min <= n <= max
  {
    hide Present, Min, Numbers.Max;
    var values := Present(cells);
    forall n: nat ensures n in values <==> Some(n) in cells {
      PresentIff(cells, n);
    }
    if values != [] {
      MinIsMember(values);
      Numbers.MaxIsMember(values);
      forall n: nat | n in values ensures Min(values) <= n <= Numbers.Max(values) {
        var k :| 0 <= k < |values| && values[k] == n;
        MinIsBound(values, k);
        Numbers.MaxIsBound(values, k);
      }
    }
  }

  // ----- encoding -----

  function NumberCodec(codec: Codec): Option<Numbers.Codec> {
    match codec
    case Bitpack => Some(Numbers.Bitpacked)
    case DeltaBitpack => Some(Numbers.DeltaBitpacked)
    case DeltaVarint => Some(Numbers.DeltaVarint)
    case Stored => Some(Numbers.Plain)
    case _ => None
  }

  function TextCodec(codec: Codec): Option<Strings.Codec> {
    match codec
    case Prefix => Some(Strings.Prefix)
    case Dictionary => Some(Strings.Dictionary)
    case Rle => Some(Strings.RunLength)
    case Stored => Some(Strings.Plain)
    case _ => None
  }

  datatype Values = Values(rawSize: nat, codecMetadata: seq<byte>, payload: seq<byte>)

  /** The values that are not null under one codec; None when the codec cannot express them. */
  function EncodeValues(codec: Codec, column: Column): Option<Values> {
    match column
    case Bools(c) =>
      if codec != BitmapCodec then None
      else Some(Values(|Present(c)|, Le64(|Present(c)|), Pack(Present(c))))
    case Numbers(c) =>
      (match NumberCodec(codec)
       case None => None
       case Some(n) =>
         match Numbers.Encode(n, Present(c))
         case None => None
         case Some(e) => if 8 * |Present(c)| >= U64_LIMIT then None else Some(Values(8 * |Present(c)|, e.0, e.1)))
    case Texts(c) =>
      (match TextCodec(codec)
       case None => None
       case Some(t) =>
         match Strings.Encode(t, Present(c))
         case None => None
         case Some(p) =>
           if Strings.RawSize(Present(c)) >= U64_LIMIT then None
           else Some(Values(Strings.RawSize(Present(c)), Le64(|Present(c)|), p)))
  }

  function ValidityBytes(nullable: bool, validity: seq<bool>): seq<byte> {
    if nullable then Pack(validity) else []
  }

  function MetadataOf(schema: ColumnSchema, column: Column, values: Values, payload: seq<byte>): ColumnMetadata {
    ColumnMetadata(schema.name, schema.valueType, schema.nullable, schema.codec, column.Rows(),
                   column.Rows() - CountTrue(column.Validity()), values.rawSize, |payload|,
                   values.codecMetadata, StatisticsBytes(StatisticsOf(column)))
  }

  /** A column under the explicit codec of its schema. */
  function EncodeColumn(schema: ColumnSchema, column: Column): Option<Chunk> {
    match EncodeValues(schema.codec, column)
    case None => None
    case Some(values) =>
      var payload := ValidityBytes(schema.nullable, column.Validity()) + values.payload;
      Some(Chunk(MetadataOf(schema, column, values, payload), payload))
  }

  /** The values that are not null, in numbers and sizes that memory can hold. */
  ghost predicate InMemory(column: Column) {
    && 64 * column.Rows() < U64_LIMIT
    && (column.Numbers? ==> AllU64(Present(column.numbers)))
    && (column.Texts? ==> Strings.RawSize(Present(column.texts)) < U64_LIMIT)
  }

  /**
    Which codecs encode a column: the bitmap booleans, delta coding the non-decreasing numbers, the dictionary strings of
    which not too many are different, and the other codecs of a type every column of it.
  */
  lemma {:induction false} EncodeColumnExists(schema: ColumnSchema, column: Column)
    requires InMemory(column)
    ensures EncodeColumn(schema, column).Some? <==>
            match column
            case Bools(_) => schema.codec.BitmapCodec?
            case Numbers(cells) =>
              || schema.codec.Bitpack? || schema.codec.Stored?
              || ((schema.codec.DeltaBitpack? || schema.codec.DeltaVarint?) && Numbers.NonDecreasing(Present(cells)))
            case Texts(cells) =>
              || schema.codec.Prefix? || schema.codec.Rle? || schema.codec.Stored?
              || (schema.codec.Dictionary? && |DistinctOf(Present(cells))| <= Strings.MAX_DICTIONARY_ENTRIES)
  {
    hide Present, Numbers.Encode, Strings.RawSize, Strings.DictionaryOf, Strings.EncodePrefix, Strings.EncodeStored;
    hide Numbers.NonDecreasing, AllU64;
    CountBound(column);
    if column.Numbers? {
      var values := Present(column.numbers);
      if NumberCodec(schema.codec).Some? {
        Numbers.EncodeExists(NumberCodec(schema.codec).value, values);
      }
    } else if column.Texts? {
      Strings.DictionaryCount(Present(column.texts));
    }
  }

  // ----- decoding -----

  /** The payload split into validity and values. */
  function SplitPayload(m: ColumnMetadata, payload: seq<byte>): Option<(seq<bool>, seq<byte>)>
    requires m.nullCount <= m.valueCount
  {
    if m.valueCount > MAX_DECODED_VALUES then None
    else
      var len := if m.nullable then ByteCount(m.valueCount) else 0;
      if len > |payload| then None
      else
        match if m.nullable then Bitmap.Decode(payload[..len], m.valueCount) else Some(seq(m.valueCount, _ => true))
        case None => None
        case Some(validity) =>
          if CountTrue(validity) != m.valueCount - m.nullCount then None else Some((validity, payload[len..]))
  }

  lemma {:induction false} AllTrue(n: nat)
    ensures CountTrue(seq(n, _ => true)) == n
  {
    if n > 0 {
      AllTrue(n - 1);
      assert seq(n, _ => true)[1..] == seq(n - 1, _ => true);
    }
  }

  lemma {:induction false} FullIsAllTrue(bits: seq<bool>)
    requires CountTrue(bits) == |bits|
    ensures bits == seq(|bits|, _ => true)
  {
    if bits != [] {
      assert bits[0];
      FullIsAllTrue(bits[1..]);
      assert bits == [true] + bits[1..];
    }
  }

  /** Splitting accepts exactly the encoder's layout of a validity bitmap in front of the values. */
  lemma {:induction false} SplitIff(m: ColumnMetadata, payload: seq<byte>, validity: seq<bool>, values: seq<byte>)
    requires m.nullCount <= m.valueCount
    ensures SplitPayload(m, payload) == Some((validity, values)) <==>
            && |validity| == m.valueCount <= MAX_DECODED_VALUES
            && CountTrue(validity) == m.valueCount - m.nullCount
            && (m.nullable || m.nullCount == 0)
            && payload == ValidityBytes(m.nullable, validity) + values
  {
    hide Pack, CountTrue, Bitmap.Decode;
    var len := if m.nullable then ByteCount(m.valueCount) else 0;
    if m.nullable {
      if len <= |payload| {
        Bitmap.DecodeIff(payload[..len], m.valueCount, validity);
        assert payload == payload[..len] + payload[len..];
      }
      if |validity| == m.valueCount && payload == Pack(validity) + values {
        assert payload[..len] == Pack(validity) && payload[len..] == values;
      }
    } else {
      AllTrue(m.valueCount);
      if |validity| == m.valueCount && CountTrue(validity) == |validity| {
        FullIsAllTrue(validity);
      }
      assert payload[0..] == payload && [] + values == values;
    }
  }

  /** The checks of the codec metadata and of the declared payload size, for the codecs of each type. */
  predicate MetadataChecked(m: ColumnMetadata, payload: seq<byte>) {
    && m.nullCount <= m.valueCount
    && (m.nullable || m.nullCount == 0)
    && m.compressedSize == |payload|
    && match m.valueType
       case BoolType =>
         && m.codec == BitmapCodec && |m.codecMetadata| == 8 && Field(m.codecMetadata, 0, 8) == m.valueCount - m.nullCount
         && |payload| == (if m.nullable then ByteCount(m.valueCount) else 0) + ByteCount(m.valueCount - m.nullCount)
       case NumberType =>
         NumberCodec(m.codec).Some? && Numbers.MetadataOk(NumberCodec(m.codec).value, m.codecMetadata, m.valueCount - m.nullCount)
       case TextType =>
         TextCodec(m.codec).Some? && |m.codecMetadata| == 8 && Field(m.codecMetadata, 0, 8) == m.valueCount - m.nullCount
  }

  /** The column behind the statistics checks. */
  function DecodeCells(m: ColumnMetadata, payload: seq<byte>): Option<Column> {
    if !MetadataChecked(m, payload) then None
    else
      match SplitPayload(m, payload)
      case None => None
      case Some((validity, bytes)) =>
        var count := m.valueCount - m.nullCount;
        match m.valueType
        case BoolType =>
          (match Bitmap.Decode(bytes, count)
           case None => None
           case Some(values) =>
             match Restore(validity, values) case None => None case Some(cells) => Some(Bools(cells)))
        case NumberType =>
          (match Numbers.Decode(NumberCodec(m.codec).value, m.codecMetadata, bytes, count)
           case None => None
           case Some(values) =>
             match Restore(validity, values) case None => None case Some(cells) => Some(Numbers(cells)))
        case TextType =>
          (match Strings.Decode(TextCodec(m.codec).value, bytes, count, m.rawSize)
           case None => None
           case Some(values) =>
             match Restore(validity, values) case None => None case Some(cells) => Some(Texts(cells)))
  }

  /** The plausibility of the statistics before decoding. */
  predicate StatisticsPlausible(m: ColumnMetadata)
    requires m.nullCount <= m.valueCount
  {
    var count := m.valueCount - m.nullCount;
    match DecodeStatistics(m.statistics)
    case None => false
    case Some(NoStatistics) => m.valueType == NumberType && count == 0
    case Some(Range(_, _)) => m.valueType == NumberType
    case Some(TrueCount(n)) => m.valueType == BoolType && n <= count
    case Some(Distinct(n)) => m.valueType == TextType && n <= count
  }

  /** Whether decoded values have the declared statistics. */
  predicate StatisticsMatch(m: ColumnMetadata, column: Column) {
    match DecodeStatistics(m.statistics)
    case None => false
    case Some(NoStatistics) => column.Numbers? && Present(column.numbers) == []
    case Some(Range(min, max)) =>
      && column.Numbers? && Present(column.numbers) != []
      && Min(Present(column.numbers)) == min && Numbers.Max(Present(column.numbers)) == max
    case Some(TrueCount(n)) => column.Bools? && CountOf(column.bools) == n
    case Some(Distinct(n)) => column.Texts? && |DistinctOf(Present(column.texts))| == n
  }

  function DecodeColumn(m: ColumnMetadata, payload: seq<byte>): Option<Column>
    requires m.nullCount <= m.valueCount
  {
    if !StatisticsPlausible(m) then None
    else
      match DecodeCells(m, payload)
      case None => None
      case Some(column) => if !StatisticsMatch(m, column) then None else Some(column)
  }

  // ----- what decoding guarantees on arbitrary bytes -----

  lemma {:induction false} RestoreKeepsValidity<T>(validity: seq<bool>, values: seq<T>)
    requires Restore(validity, values).Some?
    ensures ValidityOf(Restore(validity, values).value) == validity
    decreases |validity|
  {
    if validity != [] {
      RestoreKeepsValidity(validity[1..], if validity[0] then values[1..] else values);
      var cells := Restore(validity, values).value;
      assert cells == [cells[0]] + cells[1..] && validity == [validity[0]] + validity[1..];
    }
  }

  /** A decoded column has the declared type, rows and nulls, and its true statistics: what pruning relies on. */
  lemma {:induction false} DecodedIsDeclared(m: ColumnMetadata, payload: seq<byte>)
    requires m.nullCount <= m.valueCount && DecodeColumn(m, payload).Some?
    ensures var column := DecodeColumn(m, payload).value;
            && column.Type() == m.valueType
            && column.Rows() == m.valueCount
            && CountTrue(column.Validity()) == m.valueCount - m.nullCount
            && DecodeStatistics(m.statistics) == Some(StatisticsOf(column))
  {
    hide Numbers.Decode, Strings.Decode, Bitmap.Decode, Restore, Min, Numbers.Max, DecodeStatistics, CountOf;
    hide CountTrue, Present, SplitPayload;
    var column := DecodeColumn(m, payload).value;
    DecodedHasValidity(m, payload);
    var split := SplitPayload(m, payload).value;
    SplitIff(m, payload, split.0, split.1);
  }

  lemma {:induction false} DecodedHasValidity(m: ColumnMetadata, payload: seq<byte>)
    requires DecodeCells(m, payload).Some?
    ensures DecodeCells(m, payload).value.Type() == m.valueType
    ensures SplitPayload(m, payload).Some?
    ensures DecodeCells(m, payload).value.Validity() == SplitPayload(m, payload).value.0
  {
    hide Numbers.Decode, Strings.Decode, Bitmap.Decode, Restore, SplitPayload, MetadataChecked, ValidityOf;
    CheckedCodec(m, payload);
    var (validity, bytes) := SplitPayload(m, payload).value;
    var count := m.valueCount - m.nullCount;
    match m.valueType
    case BoolType => RestoreKeepsValidity(validity, Bitmap.Decode(bytes, count).value);
    case NumberType =>
      RestoreKeepsValidity(validity, Numbers.Decode(NumberCodec(m.codec).value, m.codecMetadata, bytes, count).value);
    case TextType =>
      RestoreKeepsValidity(validity, Strings.Decode(TextCodec(m.codec).value, bytes, count, m.rawSize).value);
  }

  lemma {:induction false} CheckedCodec(m: ColumnMetadata, payload: seq<byte>)
    requires MetadataChecked(m, payload)
    ensures m.nullCount <= m.valueCount
    ensures m.valueType == NumberType ==>
              NumberCodec(m.codec).Some? && Numbers.MetadataOk(NumberCodec(m.codec).value, m.codecMetadata, m.valueCount - m.nullCount)
    ensures m.valueType == TextType ==> TextCodec(m.codec).Some?
  {
  }

  /** The values of a column, coded in `bytes` as the metadata say. */
  ghost predicate Codes(m: ColumnMetadata, bytes: seq<byte>, column: Column)
    requires m.nullCount <= m.valueCount
  {
    var count := m.valueCount - m.nullCount;
    match column
    case Bools(cells) =>
      && m.codec == BitmapCodec && |m.codecMetadata| == 8 && Field(m.codecMetadata, 0, 8) == count
      && bytes == Pack(Present(cells))
    case Numbers(cells) =>
      && NumberCodec(m.codec).Some? && Numbers.MetadataOk(NumberCodec(m.codec).value, m.codecMetadata, count)
      && Numbers.Decode(NumberCodec(m.codec).value, m.codecMetadata, bytes, count) == Some(Present(cells))
    case Texts(cells) =>
      && TextCodec(m.codec).Some? && |m.codecMetadata| == 8 && Field(m.codecMetadata, 0, 8) == count
      && Strings.Decode(TextCodec(m.codec).value, bytes, count, m.rawSize) == Some(Present(cells))
  }

  /** Type, rows, nulls and payload size are the declared ones. */
  ghost predicate Declared(m: ColumnMetadata, payload: seq<byte>, column: Column)
    requires m.nullCount <= m.valueCount
  {
    && column.Type() == m.valueType && column.Rows() == m.valueCount <= MAX_DECODED_VALUES
    && CountTrue(column.Validity()) == m.valueCount - m.nullCount && (m.nullable || m.nullCount == 0)
    && |payload| == m.compressedSize
  }

  lemma {:induction false} CellsDecoded(m: ColumnMetadata, payload: seq<byte>) returns (bytes: seq<byte>)
    requires m.nullCount <= m.valueCount && DecodeCells(m, payload).Some?
    ensures var column := DecodeCells(m, payload).value;
            Declared(m, payload, column) && payload == ValidityBytes(m.nullable, column.Validity()) + bytes && Codes(m, bytes, column)
  {
    hide Numbers.Decode, Strings.Decode, Bitmap.Decode, Restore, SplitPayload, Present, Pack, CountTrue;
    hide Numbers.MetadataOk;
    DecodedHasValidity(m, payload);
    var (validity, rest) := SplitPayload(m, payload).value;
    bytes := rest;
    SplitIff(m, payload, validity, bytes);
    var (column, count) := (DecodeCells(m, payload).value, m.valueCount - m.nullCount);
    if column.Bools? {
      var values := Bitmap.Decode(bytes, count).value;
      Bitmap.DecodeIff(bytes, count, values);
      RestoreIff(validity, values, column.bools);
    } else if column.Numbers? {
      var codec := NumberCodec(m.codec).value;
      Numbers.PayloadCount(codec, m.codecMetadata, bytes, count);
      RestoreIff(validity, Numbers.Decode(codec, m.codecMetadata, bytes, count).value, column.numbers);
    } else {
      var codec := TextCodec(m.codec).value;
      Strings.PayloadCount(codec, bytes, count, m.rawSize);
      RestoreIff(validity, Strings.Decode(codec, bytes, count, m.rawSize).value, column.texts);
    }
  }

  lemma {:induction false} CellsDecode(m: ColumnMetadata, payload: seq<byte>, bytes: seq<byte>, column: Column)
    requires m.nullCount <= m.valueCount && Declared(m, payload, column) && Codes(m, bytes, column)
    requires payload == ValidityBytes(m.nullable, column.Validity()) + bytes
    ensures DecodeCells(m, payload) == Some(column)
  {
    CountBound(column);
    hide Numbers.Decode, Strings.Decode, Bitmap.Decode, Restore, SplitPayload, Present, Pack, CountTrue;
    hide Numbers.MetadataOk;
    var (validity, count) := (column.Validity(), m.valueCount - m.nullCount);
    SplitIff(m, payload, validity, bytes);
    if column.Bools? {
      Bitmap.DecodeIff(bytes, count, Present(column.bools));
      RestoreIff(validity, Present(column.bools), column.bools);
      assert |bytes| == ByteCount(count);
    } else if column.Numbers? {
      RestoreIff(validity, Present(column.numbers), column.numbers);
    } else {
      RestoreIff(validity, Present(column.texts), column.texts);
    }
  }

  lemma {:induction false} TrueIsPlausible(m: ColumnMetadata, column: Column)
    requires m.nullCount <= m.valueCount && column.Type() == m.valueType
    requires CountTrue(column.Validity()) == m.valueCount - m.nullCount
    requires DecodeStatistics(m.statistics) == Some(StatisticsOf(column))
    ensures StatisticsPlausible(m) && StatisticsMatch(m, column)
  {
    hide CountTrue, CountOf, Present, Min, Numbers.Max, DecodeStatistics, DistinctOf;
    CountBound(column);
    if column.Bools? {
      CountOfBound(column.bools);
    } else if column.Texts? {
      DistinctCount(Present(column.texts));
    }
  }

  /**
    What decodes to a column, on arbitrary bytes: metadata that declare its type, rows, nulls, size and true statistics,
    and a payload of its validity bitmap, if the column can have nulls, and its values under the declared codec.
  */
  lemma {:induction false} DecodeColumnIff(m: ColumnMetadata, payload: seq<byte>, column: Column)
    requires m.nullCount <= m.valueCount
    ensures DecodeColumn(m, payload) == Some(column) <==>
            && Declared(m, payload, column) && DecodeStatistics(m.statistics) == Some(StatisticsOf(column))
            && exists bytes :: payload == ValidityBytes(m.nullable, column.Validity()) + bytes && Codes(m, bytes, column)
  {
    hide DecodeCells, StatisticsPlausible, StatisticsMatch, StatisticsOf, Declared, Codes, ValidityBytes;
    hide DecodeStatistics;
    if DecodeColumn(m, payload) == Some(column) {
      DecodedIsDeclared(m, payload);
      var bytes := CellsDecoded(m, payload);
    }
    if bytes :| payload == ValidityBytes(m.nullable, column.Validity()) + bytes && Codes(m, bytes, column) {
      if Declared(m, payload, column) && DecodeStatistics(m.statistics) == Some(StatisticsOf(column)) {
        CellsDecode(m, payload, bytes, column);
        DeclaredCounts(m, payload, column);
        TrueIsPlausible(m, column);
      }
    }
  }

  lemma {:induction false} DeclaredCounts(m: ColumnMetadata, payload: seq<byte>, column: Column)
    requires m.nullCount <= m.valueCount && Declared(m, payload, column)
    ensures column.Type() == m.valueType && CountTrue(column.Validity()) == m.valueCount - m.nullCount
  {
  }

  // ----- round trip -----

  ghost predicate TextsOk(values: seq<Text>) {
    Strings.AllSized(values) && Utf8.AllValid(values)
  }

  /** The column is of the schema's type, null only where the schema allows it, and its values are in range. */
  ghost predicate Storable(schema: ColumnSchema, column: Column) {
    && column.Type() == schema.valueType
    && column.Rows() < U64_LIMIT
    && (schema.nullable || CountTrue(column.Validity()) == column.Rows())
    && match column
       case Bools(_) => true
       case Numbers(c) => AllU64(Present(c))
       case Texts(c) => TextsOk(Present(c))
  }

  /** The decoders' limits on a column under a codec: its rows, and the stored form of run-length strings. */
  predicate WithinDecoderLimits(codec: Codec, column: Column) {
    && column.Rows() <= MAX_DECODED_VALUES
    && (column.Texts? && TextCodec(codec).Some? ==> Strings.WithinLimit(TextCodec(codec).value, Present(column.texts)))
  }

  lemma {:induction false} CountBound(column: Column)
    ensures match column
            case Bools(c) => |Present(c)| == CountTrue(column.Validity()) <= column.Rows()
            case Numbers(c) => |Present(c)| == CountTrue(column.Validity()) <= column.Rows()
            case Texts(c) => |Present(c)| == CountTrue(column.Validity()) <= column.Rows()
  {
    match column
    case Bools(c) => PresentCount(c);
    case Numbers(c) => PresentCount(c);
    case Texts(c) => PresentCount(c);
  }

  /** True statistics are in range. */
  lemma {:induction false} StatisticsInRange(schema: ColumnSchema, column: Column)
    requires Storable(schema, column)
    ensures StatisticsOk(StatisticsOf(column))
  {
    hide Present, CountTrue, CountOf, Min, Numbers.Max, TextsOk;
    CountBound(column);
    if column.Bools? {
      CountOfBound(column.bools);
    } else if column.Numbers? {
      if Present(column.numbers) != [] {
        RangeOk(Present(column.numbers));
      }
    } else {
      DistinctCount(Present(column.texts));
    }
  }

  /** True statistics pass both checks of the decoder. */
  lemma {:induction false} StatisticsPass(schema: ColumnSchema, column: Column, m: ColumnMetadata)
    requires Storable(schema, column) && m.valueType == column.Type()
    requires m.nullCount <= m.valueCount && m.valueCount - m.nullCount == CountTrue(column.Validity())
    requires m.statistics == StatisticsBytes(StatisticsOf(column))
    ensures StatisticsPlausible(m) && StatisticsMatch(m, column)
  {
    hide Present, CountTrue, CountOf, Min, Numbers.Max, DecodeStatistics, StatisticsBytes, TextsOk, Strings.RawSize;
    hide Strings.EncodeStored;
    CountBound(column);
    if column.Bools? {
      CountOfBound(column.bools);
    } else if column.Texts? {
      DistinctCount(Present(column.texts));
    }
    StatisticsInRange(schema, column);
    StatisticsRoundTrip(StatisticsOf(column));
  }

  lemma {:induction false} RangeOk(values: seq<nat>)
    requires values != [] && AllU64(values)
    ensures Min(values) <= Numbers.Max(values) < U64_LIMIT
  {
    MinIsBound(values, 0);
    Numbers.MaxIsBound(values, 0);
    Numbers.MaxIsMember(values);
  }

  lemma {:induction false} TooManyRows(m: ColumnMetadata, payload: seq<byte>)
    requires m.valueCount > MAX_DECODED_VALUES
    ensures DecodeCells(m, payload) == None
  {
  }

  lemma {:induction false} BoolsRoundTrip(schema: ColumnSchema, column: Column)
    requires column.Bools? && Storable(schema, column) && EncodeColumn(schema, column).Some?
    ensures var chunk := EncodeColumn(schema, column).value;
            DecodeCells(chunk.metadata, chunk.payload) == if WithinDecoderLimits(schema.codec, column) then Some(column) else None
  {
    hide Present, CountTrue, Pack, Le, Field, Bitmap.Decode, Restore, SplitPayload, StatisticsOf, StatisticsBytes;
    var (c, chunk) := (column.bools, EncodeColumn(schema, column).value);
    var (m, values) := (chunk.metadata, Present(c));
    CountBound(column);
    if column.Rows() > MAX_DECODED_VALUES {
      TooManyRows(m, chunk.payload);
    } else {
      Numbers.CountMetadata([], |values|);
      assert [] + Le64(|values|) == Le64(|values|);
      SplitIff(m, chunk.payload, ValidityOf(c), Pack(values));
      Bitmap.DecodeIff(Pack(values), |values|, values);
      RestoreIff(ValidityOf(c), values, c);
    }
  }

  lemma {:induction false} NumbersRoundTrip(schema: ColumnSchema, column: Column)
    requires column.Numbers? && Storable(schema, column) && EncodeColumn(schema, column).Some?
    ensures var chunk := EncodeColumn(schema, column).value;
            DecodeCells(chunk.metadata, chunk.payload) == if WithinDecoderLimits(schema.codec, column) then Some(column) else None
  {
    hide Present, CountTrue, Pack, Le, Field, Numbers.Encode, Numbers.Decode, Numbers.MetadataOk, Restore;
    hide SplitPayload, StatisticsOf, StatisticsBytes, AllU64;
    var (c, chunk) := (column.numbers, EncodeColumn(schema, column).value);
    var (m, values) := (chunk.metadata, Present(c));
    CountBound(column);
    if column.Rows() > MAX_DECODED_VALUES {
      TooManyRows(m, chunk.payload);
    } else {
      var codec := NumberCodec(schema.codec).value;
      var e := Numbers.Encode(codec, values).value;
      Numbers.RoundTrip(codec, values);
      SplitIff(m, chunk.payload, ValidityOf(c), e.1);
      RestoreIff(ValidityOf(c), values, c);
    }
  }

  lemma {:induction false} TextsRoundTrip(schema: ColumnSchema, column: Column)
    requires column.Texts? && Storable(schema, column) && EncodeColumn(schema, column).Some?
    requires |EncodeColumn(schema, column).value.payload| < U64_LIMIT
    ensures var chunk := EncodeColumn(schema, column).value;
            DecodeCells(chunk.metadata, chunk.payload) == if WithinDecoderLimits(schema.codec, column) then Some(column) else None
  {
    hide Present, CountTrue, Pack, Le, Field, Strings.Encode, Strings.Decode, Strings.RawSize, Strings.EncodeStored;
    hide Restore;
    hide SplitPayload, StatisticsOf, StatisticsBytes, Strings.AllSized, Utf8.AllValid, Strings.WithinLimit;
    var (c, chunk) := (column.texts, EncodeColumn(schema, column).value);
    var (m, values) := (chunk.metadata, Present(c));
    CountBound(column);
    if column.Rows() > MAX_DECODED_VALUES {
      TooManyRows(m, chunk.payload);
    } else {
      var codec := TextCodec(schema.codec).value;
      var p := Strings.Encode(codec, values).value;
      Strings.RoundTrip(codec, values);
      Numbers.CountMetadata([], |values|);
      assert [] + Le64(|values|) == Le64(|values|);
      SplitIff(m, chunk.payload, ValidityOf(c), p);
      RestoreIff(ValidityOf(c), values, c);
    }
  }

  /**
    Columns of all types are lossless, with their nulls, under every codec that can express them, exactly within the
    decoders' limits.
  */
  lemma {:induction false} ColumnRoundTrip(schema: ColumnSchema, column: Column)
    requires Storable(schema, column) && EncodeColumn(schema, column).Some?
    requires |EncodeColumn(schema, column).value.payload| < U64_LIMIT
    ensures var chunk := EncodeColumn(schema, column).value;
            && chunk.metadata.nullCount <= chunk.metadata.valueCount
            && DecodeColumn(chunk.metadata, chunk.payload) == if WithinDecoderLimits(schema.codec, column) then Some(column) else None
  {
    hide Storable, EncodeValues, DecodeCells, StatisticsPlausible, StatisticsMatch, StatisticsOf, StatisticsBytes;
    hide ValidityOf, CountTrue, WithinDecoderLimits;
    var chunk := EncodeColumn(schema, column).value;
    CountBound(column);
    if column.Bools? {
      BoolsRoundTrip(schema, column);
    } else if column.Numbers? {
      NumbersRoundTrip(schema, column);
    } else {
      TextsRoundTrip(schema, column);
    }
    StorableType(schema, column);
    StatisticsPass(schema, column, chunk.metadata);
  }

  lemma {:induction false} StorableType(schema: ColumnSchema, column: Column)
    requires Storable(schema, column)
    ensures column.Type() == schema.valueType
  {
  }
}
