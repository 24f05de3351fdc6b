/** From parsed rows to a stored column, with the choice of codec under `auto` (crates/compact-core/src/io/v3.rs). */
module ColumnSelect {
  import opened Wrappers
  import opened Bytes
  import opened Columns
  import ColumnFormat

  /** A parsed JSON value; numbers that are no unsigned 64-bit integers, arrays and objects are all `Other`. */
  datatype Json = Null | Bool(b: bool) | Number(n: nat) | String(t: Text) | Other

  type Row = map<Text, Json>

  /** What rendering shows of a row: its value, and null for a missing field. */
  function Shown(name: Text, row: Row): Json {
    if name in row then row[name] else Null
  }

  function ValueAt(column: Column, k: nat): Json
    requires k < column.Rows()
  {
    match column
    case Bools(c) => (match c[k] case None => Null case Some(b) => Bool(b))
    case Numbers(c) => (match c[k] case None => Null case Some(n) => Number(n))
    case Texts(c) => (match c[k] case None => Null case Some(t) => String(t))
  }

  // ----- collecting the cells -----

  function CellOf<T>(schema: ColumnSchema, row: Row, pick: Json -> Option<T>): Option<Option<T>> {
    if Shown(schema.name, row) == Null then if schema.nullable then Some(None) else None
    else match pick(row[schema.name]) case None => None case Some(v) => Some(Some(v))
  }

  function CellsOf<T>(schema: ColumnSchema, rows: seq<Row>, pick: Json -> Option<T>): Option<seq<Option<T>>> {
    if rows == [] then Some([])
    else
      match CellOf(schema, rows[0], pick)
      case None => None
      case Some(cell) =>
        match CellsOf(schema, rows[1..], pick) case None => None case Some(rest) => Some([cell] + rest)
  }

  function PickBool(j: Json): Option<bool> { if j.Bool? then Some(j.b) else None }
  function PickNumber(j: Json): Option<nat> { if j.Number? then Some(j.n) else None }
  function PickText(j: Json): Option<Text> { if j.String? then Some(j.t) else None }

  function Collect(schema: ColumnSchema, rows: seq<Row>): Option<Column> {
    match schema.valueType
    case BoolType => (match CellsOf(schema, rows, PickBool) case None => None case Some(c) => Some(Bools(c)))
    case NumberType => (match CellsOf(schema, rows, PickNumber) case None => None case Some(c) => Some(Numbers(c)))
    case TextType => (match CellsOf(schema, rows, PickText) case None => None case Some(c) => Some(Texts(c)))
  }

  lemma {:induction false} CellsAt<T>(schema: ColumnSchema, rows: seq<Row>, pick: Json -> Option<T>, k: nat)
    requires CellsOf(schema, rows, pick).Some?
    ensures |CellsOf(schema, rows, pick).value| == |rows|
    ensures k < |rows| ==> CellOf(schema, rows[k], pick) == Some(CellsOf(schema, rows, pick).value[k])
    decreases |rows|
  {
    if rows != [] {
      CellsAt(schema, rows[1..], pick, if k > 0 then k - 1 else 0);
    }
  }

  /** The collected column shows exactly what the rows show, with nulls only where the schema allows them. */
  lemma {:induction false} CollectShows(schema: ColumnSchema, rows: seq<Row>, k: nat)
    requires Collect(schema, rows).Some?
    ensures Collect(schema, rows).value.Rows() == |rows| && Collect(schema, rows).value.Type() == schema.valueType
    ensures k < |rows| ==> ValueAt(Collect(schema, rows).value, k) == Shown(schema.name, rows[k])
    ensures k < |rows| && !schema.nullable ==> Collect(schema, rows).value.Validity()[k]
  {
    hide CellsOf;
    match schema.valueType
    case BoolType => CellsAt(schema, rows, PickBool, k);
    case NumberType => CellsAt(schema, rows, PickNumber, k);
    case TextType => CellsAt(schema, rows, PickText, k);
  }

  /** A row fits a column: a value of its type, or nothing where the schema allows nothing. */
  predicate CellFits(schema: ColumnSchema, row: Row) {
    match Shown(schema.name, row)
    case Null => schema.nullable
    case Bool(_) => schema.valueType == BoolType
    case Number(_) => schema.valueType == NumberType
    case String(_) => schema.valueType == TextType
    case Other => false
  }

  lemma {:induction false} CellsExist<T>(schema: ColumnSchema, rows: seq<Row>, pick: Json -> Option<T>)
    ensures CellsOf(schema, rows, pick).Some? <==> forall k :: 0 <= k < |rows| ==> CellOf(schema, rows[k], pick).Some?
    decreases |rows|
  {
    hide CellOf;
    if rows != [] {
      CellsExist(schema, rows[1..], pick);
      assert rows == [rows[0]] + rows[1..];
    }
  }

  /** Collecting a column fails exactly when a row does not fit it. */
  lemma {:induction false} CollectExists(schema: ColumnSchema, rows: seq<Row>)
    ensures Collect(schema, rows).Some? <==> forall k :: 0 <= k < |rows| ==> CellFits(schema, rows[k])
  {
    hide CellsOf;
    CellsExist(schema, rows, PickBool);
    CellsExist(schema, rows, PickNumber);
    CellsExist(schema, rows, PickText);
  }

  /** The loop of the three encoders that splits the rows into validity and values. */
  method CollectValues<T>(schema: ColumnSchema, rows: seq<Row>, pick: Json -> Option<T>)
    returns (r: Option<(seq<bool>, seq<T>)>)
    ensures r == match CellsOf(schema, rows, pick) case None => None case Some(c) => Some((ValidityOf(c), Present(c)))
  {
    var validity: seq<bool>, values: seq<T> := [], [];
    ghost var cells: seq<Option<T>> := [];
    assert rows[0..] == rows;
    PrefixedNothing(CellsOf(schema, rows, pick));
    for i := 0 to |rows|
      invariant validity == ValidityOf(cells) && values == Present(cells)
      invariant CellsOf(schema, rows, pick) == Prefixed(cells, CellsOf(schema, rows[i..], pick))
    {
      var row := rows[i];
      assert rows[i..][0] == row && rows[i..][1..] == rows[i + 1..];
      var cell: Option<T>;
      if schema.name in row && row[schema.name] != Null {
        var picked := pick(row[schema.name]);
        if picked.None? {
          return None;
        }
        cell := picked;
        validity, values := validity + [true], values + [picked.value];
      } else if schema.nullable {
        cell := None;
        validity := validity + [false];
      } else {
        return None;
      }
      assert CellOf(schema, row, pick) == Some(cell);
      PresentSnoc(cells, cell);
      PrefixedMore(cells, cell, CellsOf(schema, rows[i + 1..], pick));
      cells := cells + [cell];
    }
    assert cells + [] == cells;
    return Some((validity, values));
  }

  lemma {:induction false} PresentSnoc<T>(cells: seq<Option<T>>, cell: Option<T>)
    ensures ValidityOf(cells + [cell]) == ValidityOf(cells) + [cell.Some?]
    ensures Present(cells + [cell]) == Present(cells) + (if cell.Some? then [cell.value] else [])
  {
    if cells == [] {
      assert [] + [cell] == [cell] && [cell][1..] == [];
    } else {
      PresentSnoc(cells[1..], cell);
      assert (cells + [cell])[1..] == cells[1..] + [cell];
    }
  }

  // ----- the codec -----

  function Candidates(t: ValueType): seq<Codec> {
    match t
    case BoolType => [BitmapCodec]
    case NumberType => [DeltaBitpack, Bitpack, DeltaVarint, Stored]
    case TextType => [Prefix, Dictionary, Rle, Stored]
  }

  function Try(schema: ColumnSchema, column: Column, codec: Codec): Option<Chunk> {
    EncodeColumn(schema.(codec := codec), column)
  }

  /** Encoded metadata and payload together. */
  function ChunkSize(chunk: Chunk): Option<nat> {
    match ColumnFormat.Encode(chunk.metadata)
    case None => None
    case Some(bytes) => Some(|bytes| + |chunk.payload|)
  }

  /** The loop of `select_auto_column`: the smallest so far stays unless a later candidate is strictly smaller. */
  method SelectAuto(schema: ColumnSchema, column: Column) returns (r: Option<Chunk>)
    ensures r == Select(schema, column, Candidates(schema.valueType), None)
  {
    hide EncodeColumn, ColumnFormat.Encode;
    var best: Option<(nat, Chunk)> := None;
    var candidates := Candidates(schema.valueType);
    assert candidates[0..] == candidates;
    for i := 0 to |candidates|
      invariant Select(schema, column, candidates, None) == Select(schema, column, candidates[i..], best)
    {
      assert candidates[i..][0] == candidates[i] && candidates[i..][1..] == candidates[i + 1..];
      var chunk := Try(schema, column, candidates[i]);
      if chunk.Some? {
        var size := ChunkSize(chunk.value);
        if size.None? {
          return None;
        }
        if best.None? || size.value < best.value.0 {
          best := Some((size.value, chunk.value));
        }
      }
    }
    return if best.None? then None else Some(best.value.1);
  }

  function Select(schema: ColumnSchema, column: Column, candidates: seq<Codec>,
                  best: Option<(nat, Chunk)>): Option<Chunk>
    decreases |candidates|
  {
    if candidates == [] then match best case None => None case Some(b) => Some(b.1)
    else
      match Try(schema, column, candidates[0])
      case None => Select(schema, column, candidates[1..], best)
      case Some(chunk) =>
        match ChunkSize(chunk)
        case None => None
        case Some(size) =>
          if best.None? || size < best.value.0 then Select(schema, column, candidates[1..], Some((size, chunk)))
          else Select(schema, column, candidates[1..], best)
  }

  /** Candidate `i` works, and takes fewer bytes than every earlier and no more than every later one that works. */
  ghost predicate Smallest(schema: ColumnSchema, column: Column, candidates: seq<Codec>, i: nat) {
    && i < |candidates|
    && SizeOf(schema, column, candidates[i]).Some?
    && forall j :: 0 <= j < |candidates| && SizeOf(schema, column, candidates[j]).Some? ==>
         SizeOf(schema, column, candidates[i]).value <= SizeOf(schema, column, candidates[j]).value
         && (j < i ==> SizeOf(schema, column, candidates[i]).value < SizeOf(schema, column, candidates[j]).value)
  }

  function SizeOf(schema: ColumnSchema, column: Column, codec: Codec): Option<nat> {
    match Try(schema, column, codec) case None => None case Some(chunk) => ChunkSize(chunk)
  }

  /** Every candidate that encodes has metadata that can be written. */
  ghost predicate Writable(schema: ColumnSchema, column: Column, candidates: seq<Codec>) {
    forall j :: 0 <= j < |candidates| ==> Try(schema, column, candidates[j]).Some? ==> SizeOf(schema, column, candidates[j]).Some?
  }

  ghost predicate Carries(schema: ColumnSchema, column: Column, all: seq<Codec>, done: nat,
                          best: Option<(nat, Chunk)>) {
    && done <= |all|
    && match best
       case None => forall j :: 0 <= j < done ==> Try(schema, column, all[j]) == None
       case Some(b) =>
         exists i :: 0 <= i < done && Smallest(schema, column, all[..done], i)
                     && Try(schema, column, all[i]) == Some(b.1) && SizeOf(schema, column, all[i]) == Some(b.0)
  }

  /** One more candidate behind the others, seen from the best of them. */
  lemma {:induction false} SmallestNext(schema: ColumnSchema, column: Column, all: seq<Codec>, done: nat, i: nat)
    requires done < |all| && Smallest(schema, column, all[..done], i)
    ensures all[..done][i] == all[i] && SizeOf(schema, column, all[i]).Some?
    ensures (SizeOf(schema, column, all[done]).Some? ==> SizeOf(schema, column, all[done]).value >= SizeOf(schema, column, all[i]).value)
            ==> Smallest(schema, column, all[..done + 1], i)
    ensures SizeOf(schema, column, all[done]).Some? && SizeOf(schema, column, all[done]).value < SizeOf(schema, column, all[i]).value
            ==> Smallest(schema, column, all[..done + 1], done)
  {
    hide SizeOf;
    var front, next := all[..done], all[..done + 1];
    assert next == front + [all[done]];
    assert next[i] == front[i] && next[done] == all[done];
  }

  lemma {:induction false} SmallestFirst(schema: ColumnSchema, column: Column, all: seq<Codec>, done: nat)
    requires done < |all| && SizeOf(schema, column, all[done]).Some?
    requires forall j :: 0 <= j < done ==> SizeOf(schema, column, all[j]) == None
    ensures Smallest(schema, column, all[..done + 1], done)
  {
    hide SizeOf;
    var next := all[..done + 1];
    assert forall j :: 0 <= j <= done ==> next[j] == all[j];
  }

  lemma {:induction false} Untried(schema: ColumnSchema, column: Column, codec: Codec)
    requires Try(schema, column, codec) == None
    ensures SizeOf(schema, column, codec) == None
  {
    hide Try;
  }

  lemma {:induction false} CarriesOn(schema: ColumnSchema, column: Column, all: seq<Codec>, done: nat,
                                     best: Option<(nat, Chunk)>)
    requires Carries(schema, column, all, done, best) && done < |all|
    ensures Try(schema, column, all[done]) == None ==> Carries(schema, column, all, done + 1, best)
    ensures SizeOf(schema, column, all[done]).Some? ==>
              Carries(schema, column, all, done + 1, Better(schema, column, all[done], best))
  {
    hide Try, SizeOf, Smallest;
    if Try(schema, column, all[done]) == None {
      Untried(schema, column, all[done]);
    }
    if best.Some? {
      var i :| 0 <= i < done && Smallest(schema, column, all[..done], i)
               && Try(schema, column, all[i]) == Some(best.value.1) && SizeOf(schema, column, all[i]) == Some(best.value.0);
      SmallestNext(schema, column, all, done, i);
    } else if SizeOf(schema, column, all[done]).Some? {
      forall j | 0 <= j < done ensures SizeOf(schema, column, all[j]) == None {
        Untried(schema, column, all[j]);
      }
      SmallestFirst(schema, column, all, done);
    }
  }

  /** What the loop keeps behind a candidate that works. */
  ghost function Better(schema: ColumnSchema, column: Column, codec: Codec,
                        best: Option<(nat, Chunk)>): Option<(nat, Chunk)>
    requires SizeOf(schema, column, codec).Some?
  {
    var size := SizeOf(schema, column, codec).value;
    if best.None? || size < best.value.0 then Some((size, Try(schema, column, codec).value)) else best
  }

  lemma {:induction false} SelectFinds(schema: ColumnSchema, column: Column, all: seq<Codec>, done: nat,
                                       best: Option<(nat, Chunk)>)
    requires Carries(schema, column, all, done, best) && Writable(schema, column, all)
    ensures exists last :: Carries(schema, column, all, |all|, last)
              && Select(schema, column, all[done..], best) == if last.None? then None else Some(last.value.1)
    decreases |all| - done
  {
    hide Try, ChunkSize, Carries;
    CarriesWithin(schema, column, all, done, best);
    if done < |all| {
      CarriesOn(schema, column, all, done, best);
      assert all[done..][0] == all[done] && all[done..][1..] == all[done + 1..];
      if Try(schema, column, all[done]) == None {
        SelectFinds(schema, column, all, done + 1, best);
      } else {
        SelectFinds(schema, column, all, done + 1, Better(schema, column, all[done], best));
      }
    } else {
      assert all[done..] == [];
    }
  }

  lemma {:induction false} CarriesWithin(schema: ColumnSchema, column: Column, all: seq<Codec>, done: nat,
                                         best: Option<(nat, Chunk)>)
    requires Carries(schema, column, all, done, best)
    ensures done <= |all|
  {
  }

  lemma {:induction false} SelectIsBest(schema: ColumnSchema, column: Column)
    requires schema.name != [] && |schema.name| < 0x1_0000
    requires column.Type() == schema.valueType && (schema.nullable || CountTrue(column.Validity()) == column.Rows())
    ensures var all := Candidates(schema.valueType);
            match Select(schema, column, all, None)
            case None => forall j :: 0 <= j < |all| ==> Try(schema, column, all[j]) == None
            case Some(chunk) => exists i: nat :: i < |all| && Smallest(schema, column, all, i) && Try(schema, column, all[i]) == Some(chunk)
  {
    hide Try, ChunkSize, Select, Smallest;
    var all := Candidates(schema.valueType);
    forall j | 0 <= j < |all| && Try(schema, column, all[j]).Some? ensures SizeOf(schema, column, all[j]).Some? {
      CandidateWritable(schema, column, all[j]);
    }
    SelectFinds(schema, column, all, 0, None);
    assert all[0..] == all && all[..|all|] == all;
  }

  lemma {:induction false} CandidateWritable(schema: ColumnSchema, column: Column, codec: Codec)
    requires schema.name != [] && |schema.name| < 0x1_0000
    requires column.Type() == schema.valueType && (schema.nullable || CountTrue(column.Validity()) == column.Rows())
    requires Try(schema, column, codec).Some?
    ensures SizeOf(schema, column, codec).Some?
  {
    hide StatisticsOf, CountTrue, Present, ColumnFormat.Fields;
    var m := Try(schema, column, codec).value.metadata;
    StatisticsShort(StatisticsOf(column));
    ValuesMetadata(codec, column);
  }

  lemma {:induction false} StatisticsShort(s: Statistics)
    ensures |StatisticsBytes(s)| <= 17
  {
  }

  lemma {:induction false} ValuesMetadata(codec: Codec, column: Column)
    requires EncodeValues(codec, column).Some?
    ensures |EncodeValues(codec, column).value.codecMetadata| <= 17
    ensures match column
            case Bools(_) => codec.BitmapCodec?
            case Numbers(_) => codec.Bitpack? || codec.DeltaBitpack? || codec.DeltaVarint? || codec.Stored?
            case Texts(_) => codec.Dictionary? || codec.Prefix? || codec.Rle? || codec.Stored?
  {
    hide Present, Le;
  }

  /** `encode_column`. */
  function Encode(schema: ColumnSchema, column: Column): Option<Chunk> {
    if schema.codec == Auto then Select(schema, column, Candidates(schema.valueType), None) else EncodeColumn(schema, column)
  }

  // ----- the meaning of `auto` -----

  /** What a chunk takes in a file: its encoded metadata and its payload. */
  function Footprint(chunk: Chunk): nat
    requires ColumnFormat.Encode(chunk.metadata).Some?
  {
    |ColumnFormat.Encode(chunk.metadata).value| + |chunk.payload|
  }

  /** The codecs of each type in the order of preference between chunks of the same size. */
  function Rank(t: ValueType, codec: Codec): nat {
    match (t, codec)
    case (NumberType, DeltaBitpack) => 0
    case (NumberType, Bitpack) => 1
    case (NumberType, DeltaVarint) => 2
    case (NumberType, Stored) => 3
    case (TextType, Prefix) => 0
    case (TextType, Dictionary) => 1
    case (TextType, Rle) => 2
    case (TextType, Stored) => 3
    case (BoolType, BitmapCodec) => 0
    case (_, _) => 4
  }

  /** The chunk that this codec makes takes no more bytes than the chunk of any other, and is preferred to an equal one. */
  ghost predicate Preferred(schema: ColumnSchema, column: Column, codec: Codec, chunk: Chunk) {
    && EncodeColumn(schema.(codec := codec), column) == Some(chunk) && ColumnFormat.Encode(chunk.metadata).Some?
    && forall other :: EncodeColumn(schema.(codec := other), column).Some? ==>
         NoWorse(schema, codec, chunk, other, EncodeColumn(schema.(codec := other), column).value)
  }

  ghost predicate NoWorse(schema: ColumnSchema, codec: Codec, chunk: Chunk, other: Codec, otherChunk: Chunk)
    requires ColumnFormat.Encode(chunk.metadata).Some?
  {
    && ColumnFormat.Encode(otherChunk.metadata).Some?
    && Footprint(chunk) <= Footprint(otherChunk)
    && (Footprint(chunk) == Footprint(otherChunk) && other != codec ==> Rank(schema.valueType, codec) < Rank(schema.valueType, other))
  }

  /** A codec that encodes a column is one of the candidates of its type, in the place of its rank. */
  lemma {:induction false} CandidateAt(schema: ColumnSchema, column: Column, codec: Codec)
    requires column.Type() == schema.valueType && EncodeColumn(schema.(codec := codec), column).Some?
    ensures var (all, rank) := (Candidates(schema.valueType), Rank(schema.valueType, codec));
            rank < |all| && all[rank] == codec
  {
    hide EncodeValues;
    ValuesMetadata(codec, column);
  }

  lemma {:induction false} RankAt(t: ValueType, i: nat)
    requires i < |Candidates(t)|
    ensures Rank(t, Candidates(t)[i]) == i
  {
  }

  lemma {:induction false} SizeIsBytes(schema: ColumnSchema, column: Column, codec: Codec, chunk: Chunk)
    requires EncodeColumn(schema.(codec := codec), column) == Some(chunk) && SizeOf(schema, column, codec).Some?
    ensures ColumnFormat.Encode(chunk.metadata).Some? && SizeOf(schema, column, codec).value == Footprint(chunk)
  {
    hide EncodeColumn, ColumnFormat.Encode;
  }

  /**
    `auto` picks, among all codecs, the one with the fewest bytes, and the first in the order of its type of several; it
    fails only if no codec at all encodes the column.
  */
  lemma {:induction false} AutoIsBest(schema: ColumnSchema, column: Column)
    requires schema.name != [] && |schema.name| < 0x1_0000
    requires column.Type() == schema.valueType && (schema.nullable || CountTrue(column.Validity()) == column.Rows())
    ensures match Encode(schema.(codec := Auto), column)
            case None => forall codec :: EncodeColumn(schema.(codec := codec), column) == None
            case Some(chunk) => exists codec :: Preferred(schema, column, codec, chunk)
  {
    hide EncodeColumn, Select, CountTrue, Smallest, SizeOf, Candidates, Rank;
    var (auto, all) := (schema.(codec := Auto), Candidates(schema.valueType));
    SelectIsBest(auto, column);
    forall codec | EncodeColumn(schema.(codec := codec), column).Some?
      ensures var rank := Rank(schema.valueType, codec); rank < |all| && all[rank] == codec && Try(auto, column, codec).Some?
    {
      CandidateAt(schema, column, codec);
    }
    var selected := Encode(auto, column);
    if selected.Some? {
      var i: nat :| i < |all| && Smallest(auto, column, all, i) && Try(auto, column, all[i]) == selected;
      SmallestIsPreferred(schema, column, i, selected.value);
    }
  }

  lemma {:induction false} SmallestIsPreferred(schema: ColumnSchema, column: Column, i: nat, chunk: Chunk)
    requires schema.name != [] && |schema.name| < 0x1_0000
    requires column.Type() == schema.valueType && (schema.nullable || CountTrue(column.Validity()) == column.Rows())
    requires var auto := schema.(codec := Auto);
             var all := Candidates(schema.valueType);
             i < |all| && Smallest(auto, column, all, i) && Try(auto, column, all[i]) == Some(chunk)
    ensures Preferred(schema, column, Candidates(schema.valueType)[i], chunk)
  {
    hide EncodeColumn, CountTrue, SizeOf, Candidates, Rank, Footprint;
    var (auto, all) := (schema.(codec := Auto), Candidates(schema.valueType));
    var codec := all[i];
    SizeIsBytes(auto, column, codec, chunk);
    RankAt(schema.valueType, i);
    forall other | EncodeColumn(schema.(codec := other), column).Some?
      ensures NoWorse(schema, codec, chunk, other, EncodeColumn(schema.(codec := other), column).value)
    {
      var otherChunk := EncodeColumn(schema.(codec := other), column).value;
      CandidateAt(schema, column, other);
      var j := Rank(schema.valueType, other);
      CandidateWritable(auto, column, other);
      SizeIsBytes(auto, column, other, otherChunk);
      assert all[j] == other && SizeOf(auto, column, all[j]).Some?;
    }
  }

  /** The chunk written for a column is always one candidate's own. */
  lemma {:induction false} SelectIsTried(schema: ColumnSchema, column: Column, candidates: seq<Codec>,
                                         best: Option<(nat, Chunk)>)
    requires Select(schema, column, candidates, best).Some?
    ensures var chunk := Select(schema, column, candidates, best).value;
            (best.Some? && chunk == best.value.1) || exists codec :: Try(schema, column, codec) == Some(chunk)
    decreases |candidates|
  {
    hide Try, ChunkSize;
    if candidates != [] {
      match Try(schema, column, candidates[0])
      case None => SelectIsTried(schema, column, candidates[1..], best);
      case Some(chunk) =>
        var size := ChunkSize(chunk).value;
        SelectIsTried(schema, column, candidates[1..], if best.None? || size < best.value.0 then Some((size, chunk)) else best);
    }
  }

  /** Whichever codec is chosen, the chunk decodes to the column, exactly within the decoders' limits for that codec. */
  lemma {:induction false} EncodedRoundTrip(schema: ColumnSchema, column: Column)
    requires Storable(schema, column) && Encode(schema, column).Some?
    requires |Encode(schema, column).value.payload| < U64_LIMIT
    ensures var chunk := Encode(schema, column).value;
            && chunk.metadata.nullCount <= chunk.metadata.valueCount == column.Rows()
            && chunk.metadata.compressedSize == |chunk.payload|
            && chunk.metadata.name == schema.name && chunk.metadata.valueType == schema.valueType
            && chunk.metadata.nullable == schema.nullable
            && (schema.codec == Auto || chunk.metadata.codec == schema.codec)
            && chunk.metadata.statistics == StatisticsBytes(StatisticsOf(column))
            && DecodeColumn(chunk.metadata, chunk.payload)
               == if WithinDecoderLimits(chunk.metadata.codec, column) then Some(column) else None
  {
    hide Storable, EncodeValues, DecodeColumn, StatisticsOf, StatisticsBytes, CountTrue, Select, WithinDecoderLimits;
    var chunk := Encode(schema, column).value;
    var codec := schema.codec;
    if schema.codec == Auto {
      SelectIsTried(schema, column, Candidates(schema.valueType), None);
      codec :| Try(schema, column, codec) == Some(chunk);
    }
    var tried := schema.(codec := codec);
    assert EncodeColumn(tried, column) == Some(chunk);
    StorableAnyCodec(schema, column, codec);
    ColumnRoundTrip(tried, column);
  }

  lemma {:induction false} StorableAnyCodec(schema: ColumnSchema, column: Column, codec: Codec)
    requires Storable(schema, column)
    ensures Storable(schema.(codec := codec), column)
  {
  }
}
