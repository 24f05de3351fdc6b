/** The bytes of one column's metadata (crates/compact-core/src/format/v3.rs). */
module ColumnFormat {
  import opened Wrappers
  import opened Bytes
  import opened Columns
  import Utf8

  function ValueTypeId(t: ValueType): byte {
    match t case BoolType => 1 case TextType => 2 case NumberType => 3
  }

  function ValueTypeOf(id: byte): Option<ValueType> {
    if id == 1 then Some(BoolType) else if id == 2 then Some(TextType) else if id == 3 then Some(NumberType) else None
  }

  function CodecId(c: Codec): byte {
    match c
    case Auto => 1
    case BitmapCodec => 2
    case Bitpack => 3
    case DeltaBitpack => 9
    case Dictionary => 4
    case DeltaVarint => 5
    case Prefix => 6
    case Rle => 7
    case Stored => 8
  }

  function CodecOf(id: byte): Option<Codec> {
    match id
    case 1 => Some(Auto)
    case 2 => Some(BitmapCodec)
    case 3 => Some(Bitpack)
    case 4 => Some(Dictionary)
    case 5 => Some(DeltaVarint)
    case 6 => Some(Prefix)
    case 7 => Some(Rle)
    case 8 => Some(Stored)
    case 9 => Some(DeltaBitpack)
    case _ => None
  }

  function Flag(b: bool): byte { if b then 1 else 0 }

  /** `validate_column_metadata`. */
  predicate Valid(m: ColumnMetadata) {
    && m.name != []
    && m.nullCount <= m.valueCount
    && (m.nullable || m.nullCount == 0)
    && match m.valueType
       case NumberType => m.codec.Bitpack? || m.codec.DeltaBitpack? || m.codec.DeltaVarint? || m.codec.Stored?
       case TextType => m.codec.Dictionary? || m.codec.Prefix? || m.codec.Rle? || m.codec.Stored?
       case BoolType => m.codec.BitmapCodec? || m.codec.Stored?
  }

  /** What every value of the source's type satisfies: 64-bit counts and a UTF-8 name. */
  predicate Typed(m: ColumnMetadata) {
    m.valueCount < U64_LIMIT && m.nullCount < U64_LIMIT && m.rawSize < U64_LIMIT && m.compressedSize < U64_LIMIT && Utf8.Valid(m.name)
  }

  function Counts(m: ColumnMetadata): (c: seq<byte>)
    ensures |c| == 32
  {
    Le64(m.valueCount) + (Le64(m.nullCount) + (Le64(m.rawSize) + Le64(m.compressedSize)))
  }

  function Kinds(m: ColumnMetadata): (k: seq<byte>)
    ensures |k| == 3
  {
    [ValueTypeId(m.valueType), Flag(m.nullable), CodecId(m.codec)]
  }

  function Sized32(s: seq<byte>): seq<byte> { Le32(|s|) + s }

  function Fields(m: ColumnMetadata): seq<byte> {
    (Le16(|m.name|) + m.name) + (Kinds(m) + (Counts(m) + (Sized32(m.codecMetadata) + Sized32(m.statistics))))
  }

  /** `encode_column_metadata`. */
  function Encode(m: ColumnMetadata): Option<seq<byte>> {
    if !Valid(m) then None
    else if |m.name| >= 0x1_0000 || |m.codecMetadata| >= U32_LIMIT || |m.statistics| >= U32_LIMIT then None
    else Some(Fields(m))
  }

  /** A part of a record with a four-byte length in front, and the position behind it. */
  function ReadSized32(data: seq<byte>, pos: nat): Option<(seq<byte>, nat)> {
    if pos + 4 > |data| then None
    else
      var len := Field(data, pos, 4);
      if pos + 4 + len > |data| then None else Some((data[pos + 4..pos + 4 + len], pos + 4 + len))
  }

  /** The record behind the name, which ends at `pos`. */
  function ReadFields(data: seq<byte>, name: Text, pos: nat): Option<ColumnMetadata> {
    if pos + 35 > |data| then None
    else
      match (ValueTypeOf(data[pos]), CodecOf(data[pos + 2]))
      case (Some(t), Some(codec)) =>
        if data[pos + 1] > 1 then None
        else
          (match ReadSized32(data, pos + 35)
           case None => None
           case Some((codecMetadata, next)) =>
             match ReadSized32(data, next)
             case None => None
             case Some((statistics, end)) =>
               if end != |data| then None
               else Some(ColumnMetadata(name, t, data[pos + 1] == 1, codec, Field(data, pos + 3, 8), Field(data, pos + 11, 8),
                                        Field(data, pos + 19, 8), Field(data, pos + 27, 8), codecMetadata, statistics)))
      case _ => None
  }

  /** `decode_column_metadata` on a record that has to be used up. */
  function Decode(data: seq<byte>): (r: Option<ColumnMetadata>)
    ensures r.Some? ==> Valid(r.value)
  {
    if |data| < 2 then None
    else
      var nameLen := Field(data, 0, 2);
      if 2 + nameLen > |data| then None
      else if !Utf8.Valid(data[2..2 + nameLen]) then None
      else
        match ReadFields(data, data[2..2 + nameLen], 2 + nameLen)
        case None => None
        case Some(m) => if Valid(m) then Some(m) else None
  }

  lemma {:induction false} ReadSized32Iff(data: seq<byte>, pos: nat, part: seq<byte>, next: nat)
    ensures ReadSized32(data, pos) == Some((part, next)) <==>
            |part| < U32_LIMIT && At(data, pos, Sized32(part)) && next == pos + |Sized32(part)|
  {
    Pow256Values();
    FieldBound(data, pos, 4);
    if |part| < U32_LIMIT {
      AtConcat(data, pos, Le32(|part|), part);
      AtField(data, pos, 4, |part|);
    }
  }

  lemma {:induction false} CountsAt(data: seq<byte>, pos: nat, m: ColumnMetadata)
    requires m.valueCount < U64_LIMIT && m.nullCount < U64_LIMIT && m.rawSize < U64_LIMIT && m.compressedSize < U64_LIMIT
    ensures At(data, pos, Counts(m)) <==>
            && pos + 32 <= |data|
            && Field(data, pos, 8) == m.valueCount && Field(data, pos + 8, 8) == m.nullCount
            && Field(data, pos + 16, 8) == m.rawSize && Field(data, pos + 24, 8) == m.compressedSize
  {
    hide Le, At, Field;
    Pow256Values();
    var c := Le64(m.rawSize) + Le64(m.compressedSize);
    AtConcat(data, pos, Le64(m.valueCount), Le64(m.nullCount) + c);
    AtConcat(data, pos + 8, Le64(m.nullCount), c);
    AtConcat(data, pos + 16, Le64(m.rawSize), Le64(m.compressedSize));
    AtField(data, pos, 8, m.valueCount);
    AtField(data, pos + 8, 8, m.nullCount);
    AtField(data, pos + 16, 8, m.rawSize);
    AtField(data, pos + 24, 8, m.compressedSize);
  }

  lemma {:induction false} KindsAt(data: seq<byte>, pos: nat, m: ColumnMetadata)
    ensures At(data, pos, Kinds(m)) <==>
            && pos + 3 <= |data|
            && ValueTypeOf(data[pos]) == Some(m.valueType)
            && data[pos + 1] <= 1 && (data[pos + 1] == 1) == m.nullable
            && CodecOf(data[pos + 2]) == Some(m.codec)
  {
    if pos + 3 <= |data| {
      assert data[pos..pos + 3] == [data[pos], data[pos + 1], data[pos + 2]];
    }
  }

  lemma {:induction false} ReadFieldsIff(data: seq<byte>, pos: nat, m: ColumnMetadata)
    ensures ReadFields(data, m.name, pos) == Some(m) <==>
            && m.valueCount < U64_LIMIT && m.nullCount < U64_LIMIT && m.rawSize < U64_LIMIT && m.compressedSize < U64_LIMIT
            && |m.codecMetadata| < U32_LIMIT && |m.statistics| < U32_LIMIT
            && At(data, pos, Kinds(m)) && At(data, pos + 3, Counts(m))
            && At(data, pos + 35, Sized32(m.codecMetadata))
            && At(data, pos + 35 + |Sized32(m.codecMetadata)|, Sized32(m.statistics))
            && |data| == pos + 35 + |Sized32(m.codecMetadata)| + |Sized32(m.statistics)|
  {
    hide At, Field, Counts, Kinds, Sized32, ReadSized32, ValueTypeOf, CodecOf;
    Pow256Values();
    FieldBound(data, pos + 3, 8);
    FieldBound(data, pos + 11, 8);
    FieldBound(data, pos + 19, 8);
    FieldBound(data, pos + 27, 8);
    KindsAt(data, pos, m);
    ReadSized32Iff(data, pos + 35, m.codecMetadata, pos + 35 + |Sized32(m.codecMetadata)|);
    var next := pos + 35 + |Sized32(m.codecMetadata)|;
    ReadSized32Iff(data, next, m.statistics, next + |Sized32(m.statistics)|);
    if ReadSized32(data, pos + 35).Some? {
      var r := ReadSized32(data, pos + 35).value;
      ReadSized32Iff(data, pos + 35, r.0, r.1);
      if ReadSized32(data, r.1).Some? {
        var s := ReadSized32(data, r.1).value;
        ReadSized32Iff(data, r.1, s.0, s.1);
      }
    }
    if m.valueCount < U64_LIMIT && m.nullCount < U64_LIMIT && m.rawSize < U64_LIMIT && m.compressedSize < U64_LIMIT {
      CountsAt(data, pos + 3, m);
    }
  }

  /** Metadata decodes from exactly the bytes it encodes to. */
  lemma {:induction false} DecodeIff(data: seq<byte>, m: ColumnMetadata)
    ensures Decode(data) == Some(m) <==> Typed(m) && Encode(m) == Some(data)
  {
    hide At, Field, Kinds, Counts, Sized32, ReadFields, Valid, Utf8.Valid, Le;
    Pow256Values();
    FieldBound(data, 0, 2);
    ReadFieldsIff(data, 2 + |m.name|, m);
    FieldsAt(data, m);
    if |m.name| < 0x1_0000 {
      NameAt(data, 0, m.name);
    }
    if Decode(data).Some? {
      ReadFieldsName(data, data[2..2 + Field(data, 0, 2)], 2 + Field(data, 0, 2));
    }
  }

  lemma {:induction false} ReadFieldsName(data: seq<byte>, name: Text, pos: nat)
    requires ReadFields(data, name, pos).Some?
    ensures ReadFields(data, name, pos).value.name == name
  {
  }

  lemma {:induction false} NameAt(data: seq<byte>, pos: nat, name: Text)
    requires |name| < 0x1_0000
    ensures At(data, pos, Le16(|name|) + name) <==>
            pos + 2 + |name| <= |data| && Field(data, pos, 2) == |name| && data[pos + 2..pos + 2 + |name|] == name
  {
    Pow256Values();
    AtConcat(data, pos, Le16(|name|), name);
    AtField(data, pos, 2, |name|);
  }

  lemma {:induction false} FieldsAt(data: seq<byte>, m: ColumnMetadata)
    ensures data == Fields(m) <==>
            && At(data, 0, Le16(|m.name|) + m.name)
            && At(data, 2 + |m.name|, Kinds(m)) && At(data, 5 + |m.name|, Counts(m))
            && At(data, 37 + |m.name|, Sized32(m.codecMetadata))
            && At(data, 37 + |m.name| + |Sized32(m.codecMetadata)|, Sized32(m.statistics))
            && |data| == 37 + |m.name| + |Sized32(m.codecMetadata)| + |Sized32(m.statistics)|
  {
    hide At, Kinds, Counts, Sized32, Le;
    var (a, b, c) := (Le16(|m.name|) + m.name, Kinds(m), Counts(m));
    var (x, y) := (Sized32(m.codecMetadata), Sized32(m.statistics));
    assert |a| == 2 + |m.name|;
    AtCovers(data, a, b + (c + (x + y)));
    AtConcat(data, |a|, b, c + (x + y));
    AtConcat(data, |a| + 3, c, x + y);
    AtConcat(data, |a| + 35, x, y);
  }
}
