/**
  The four payload codecs of a `u64` column (crates/compact-core/src/codecs/v3/numeric.rs,
  crates/compact-core/src/primitives/delta.rs, crates/compact-core/src/pipeline/delta_varint.rs).
*/
module Numbers {
  import opened Wrappers
  import opened Bytes
  import opened Limits
  import opened Bits
  import Bitpack
  import Varint

  datatype Codec = Bitpacked | DeltaBitpacked | DeltaVarint | Plain

  // ----- deltas -----

  /** The steps from `previous` through the values; None when one of them goes down. */
  function DeltasFrom(previous: nat, values: seq<nat>): Option<seq<nat>>
    decreases |values|
  {
    if values == [] then Some([])
    else if values[0] < previous then None
    else
      match DeltasFrom(values[0], values[1..])
      case None => None
      case Some(rest) => Some([values[0] - previous] + rest)
  }

  /** The values at which the steps arrive; None on overflow of 64 bits. */
  function SumsFrom(previous: nat, deltas: seq<nat>): Option<seq<nat>>
    decreases |deltas|
  {
    if deltas == [] then Some([])
    else if previous + deltas[0] >= U64_LIMIT then None
    else
      match SumsFrom(previous + deltas[0], deltas[1..])
      case None => None
      case Some(rest) => Some([previous + deltas[0]] + rest)
  }

  predicate NonDecreasing(values: seq<nat>) {
    forall i, j :: 0 <= i < j < |values| ==> values[i] <= values[j]
  }

  /** Deltas and running sums are inverse: 64-bit values arise from steps exactly when these are their deltas. */
  lemma {:induction false} SumsIff(previous: nat, deltas: seq<nat>, values: seq<nat>)
    ensures SumsFrom(previous, deltas) == Some(values) <==> AllU64(values) && DeltasFrom(previous, values) == Some(deltas)
    decreases |deltas| + |values|
  {
    if deltas != [] && values != [] {
      SumsIff(values[0], deltas[1..], values[1..]);
      assert values == [values[0]] + values[1..] && deltas == [deltas[0]] + deltas[1..];
      assert AllU64(values) <==> values[0] < U64_LIMIT && AllU64(values[1..]) by {
        if values[0] < U64_LIMIT && AllU64(values[1..]) {
          forall k | 0 <= k < |values| ensures values[k] < U64_LIMIT {
            assert k > 0 ==> values[k] == values[1..][k - 1];
          }
        }
      }
    }
  }

  /** Delta encoding is possible for exactly the non-decreasing lists. */
  lemma {:induction false} DeltasExist(previous: nat, values: seq<nat>)
    ensures DeltasFrom(previous, values).Some? <==> NonDecreasing([previous] + values)
    decreases |values|
  {
    var all := [previous] + values;
    if values != [] {
      DeltasExist(values[0], values[1..]);
      assert [values[0]] + values[1..] == values;
      assert NonDecreasing(all) <==> previous <= values[0] && NonDecreasing(values) by {
        if NonDecreasing(all) {
          assert all[0] <= all[1];
          forall i, j | 0 <= i < j < |values| ensures values[i] <= values[j] {
            assert all[i + 1] <= all[j + 1];
          }
        }
        if previous <= values[0] && NonDecreasing(values) {
          forall i, j | 0 <= i < j < |all| ensures all[i] <= all[j] {
            assert i == 0 ==> all[1] <= all[j];
          }
        }
      }
    }
  }

  lemma {:induction false} DeltasLength(previous: nat, values: seq<nat>)
    requires DeltasFrom(previous, values).Some?
    ensures |DeltasFrom(previous, values).value| == |values|
    ensures AllU64(values) ==> AllU64(DeltasFrom(previous, values).value)
    decreases |values|
  {
    if values != [] {
      DeltasLength(values[0], values[1..]);
      var rest := DeltasFrom(values[0], values[1..]).value;
      if AllU64(values) {
        forall k | 0 <= k < |values| ensures DeltasFrom(previous, values).value[k] < U64_LIMIT {
          assert k > 0 ==> DeltasFrom(previous, values).value[k] == rest[k - 1];
        }
      }
    }
  }

  // ----- widths -----

  /** `required_width`: 64 minus the leading zeros. */
  function RequiredWidth(value: nat): nat {
    if value == 0 then 0 else 1 + RequiredWidth(value / 2)
  }

  /** The width is enough for the value, and the smallest such. */
  lemma {:induction false} WidthTight(value: nat, width: nat)
    ensures value < Pow2(width) <==> RequiredWidth(value) <= width
    decreases value
  {
    if value > 0 {
      if width > 0 {
        WidthTight(value / 2, width - 1);
      }
    }
  }

  function Max(values: seq<nat>): nat {
    if values == [] then 0
    else var rest := Max(values[1..]); if values[0] > rest then values[0] else rest
  }

  lemma {:induction false} MaxIsBound(values: seq<nat>, k: nat)
    requires k < |values|
    ensures values[k] <= Max(values)
  {
    if k > 0 {
      MaxIsBound(values[1..], k - 1);
    }
  }

  lemma {:induction false} MaxIsMember(values: seq<nat>)
    requires values != []
    ensures Max(values) in values
  {
    if |values| > 1 {
      MaxIsMember(values[1..]);
      if values[0] <= Max(values[1..]) {
        var k :| 0 <= k < |values[1..]| && values[1..][k] == Max(values[1..]);
        assert values[k + 1] == Max(values);
      }
    } else {
      assert values[1..] == [];
    }
  }

  function WidthOf(values: seq<nat>): nat { RequiredWidth(Max(values)) }

  lemma {:induction false} WidthFits(values: seq<nat>)
    requires AllU64(values)
    ensures WidthOf(values) <= 64 && Bitpack.Fits(values, WidthOf(values))
  {
    Pow2Values();
    var w := WidthOf(values);
    WidthTight(Max(values), 64);
    WidthTight(Max(values), w);
    if values != [] {
      MaxIsMember(values);
    }
    forall k | 0 <= k < |values| ensures values[k] < Pow2(w) {
      MaxIsBound(values, k);
    }
  }

  // ----- the codecs -----

  function PlainValues(payload: seq<byte>): (values: seq<nat>)
    requires |payload| % 8 == 0
    ensures |values| == |payload| / 8
  {
    if payload == [] then [] else [FromLe(payload[..8])] + PlainValues(payload[8..])
  }

  /** Codec metadata and value payload; None when the codec cannot express the values. */
  function Encode(codec: Codec, values: seq<nat>): Option<(seq<byte>, seq<byte>)> {
    match codec
    case Bitpacked =>
      var width := WidthOf(values);
      (match Bitpack.Encode(values, width)
       case None => None
       case Some(payload) => Some(([WidthByte(width)] + Le64(|values|), payload)))
    case DeltaBitpacked =>
      var base := if values == [] then 0 else values[0];
      (match DeltasFrom(base, values)
       case None => None
       case Some(deltas) =>
         var width := WidthOf(deltas);
         match Bitpack.Encode(deltas, width)
         case None => None
         case Some(payload) => Some(([WidthByte(width)] + (Le64(base) + Le64(|values|)), payload)))
    case DeltaVarint =>
      (match DeltasFrom(0, values)
       case None => None
       case Some(deltas) => Some((Le64(|values|), Varint.EncodeAll(deltas))))
    case Plain => Some((Le64(|values|), Words(values)))
  }

  function WidthByte(width: nat): byte { width % 256 }

  /** The expected length of the codec metadata. */
  function MetadataLen(codec: Codec): nat {
    match codec
    case Bitpacked => 9
    case DeltaBitpacked => 17
    case DeltaVarint => 8
    case Plain => 8
  }

  /** The checks on the codec metadata: length, width and declared count. */
  predicate MetadataOk(codec: Codec, metadata: seq<byte>, count: nat) {
    && |metadata| == MetadataLen(codec)
    && (codec.Bitpacked? || codec.DeltaBitpacked? ==> metadata[0] <= 64)
    && Field(metadata, |metadata| - 8, 8) == count
  }

  /** The values of a payload; `count` is the number of values that are not null. */
  function Decode(codec: Codec, metadata: seq<byte>, payload: seq<byte>, count: nat): Option<seq<nat>>
    requires MetadataOk(codec, metadata, count)
  {
    match codec
    case Bitpacked => Bitpack.Decode(payload, metadata[0], count)
    case DeltaBitpacked =>
      (match Bitpack.Decode(payload, metadata[0], count)
       case None => None
       case Some(deltas) => SumsFrom(Field(metadata, 1, 8), deltas))
    case DeltaVarint =>
      (match Varint.DecodeFrom(payload, 0)
       case None => None
       case Some(deltas) =>
         match SumsFrom(0, deltas)
         case None => None
         case Some(values) => if |values| != count then None else Some(values))
    case Plain => if |payload| != 8 * count then None else Some(PlainValues(payload))
  }

  lemma {:induction false} PlainRoundTrip(values: seq<nat>)
    requires AllU64(values)
    ensures PlainValues(Words(values)) == values
  {
    if values != [] {
      Pow256Values();
      FromLeOfLe(8, values[0]);
      assert Words(values)[..8] == Le64(values[0]) && Words(values)[8..] == Words(values[1..]);
      PlainRoundTrip(values[1..]);
    }
  }

  lemma {:induction false} CountMetadata(front: seq<byte>, count: nat)
    requires count < U64_LIMIT
    ensures Field(front + Le64(count), |front|, 8) == count
  {
    Pow256Values();
    var m := front + Le64(count);
    assert m[|front|..|front| + 8] == Le64(count);
    FromLeOfLe(8, count);
  }

  lemma BaseMetadata(width: byte, base: nat, count: nat)
    requires base < U64_LIMIT && count < U64_LIMIT
    ensures Field([width] + (Le64(base) + Le64(count)), 1, 8) == base
    ensures Field([width] + (Le64(base) + Le64(count)), 9, 8) == count
  {
    Pow256Values();
    var m := [width] + (Le64(base) + Le64(count));
    assert m[1..9] == Le64(base) && m[9..17] == Le64(count);
    FromLeOfLe(8, base);
    FromLeOfLe(8, count);
  }

  lemma {:induction false} VarintDeltas(deltas: seq<nat>)
    requires AllU64(deltas)
    ensures Varint.DecodeFrom(Varint.EncodeAll(deltas), 0) == Some(deltas)
  {
    Varint.DecodeIff(Varint.EncodeAll(deltas), deltas);
  }

  /** Whatever a codec encodes it decodes to the same values: `u64` columns are lossless under all four codecs. */
  lemma {:induction false} RoundTrip(codec: Codec, values: seq<nat>)
    requires AllU64(values) && |values| <= MAX_DECODED_VALUES
    requires Encode(codec, values).Some?
    ensures MetadataOk(codec, Encode(codec, values).value.0, |values|)
    ensures Decode(codec, Encode(codec, values).value.0, Encode(codec, values).value.1, |values|) == Some(values)
  {
    hide DeltasFrom, SumsFrom, Bitpack.Encode, Bitpack.Decode, RequiredWidth, Max, Varint.DecodeFrom, Varint.EncodeAll;
    hide Le, FromLe, Words, PlainValues, AllU64, Field;
    match codec
    case Bitpacked =>
      WidthIsByte(values);
      CountMetadata([WidthByte(WidthOf(values))], |values|);
      Bitpack.DecodeIff(Encode(codec, values).value.1, WidthOf(values), |values|, values);
    case DeltaBitpacked =>
      DeltaBitpackRoundTrip(values);
    case DeltaVarint =>
      CountMetadata([], |values|);
      assert [] + Le64(|values|) == Le64(|values|);
      var deltas := DeltasFrom(0, values).value;
      DeltasLength(0, values);
      VarintDeltas(deltas);
      SumsIff(0, deltas, values);
    case Plain =>
      CountMetadata([], |values|);
      assert [] + Le64(|values|) == Le64(|values|);
      PlainRoundTrip(values);
  }

  lemma {:induction false} PlainOfWords(payload: seq<byte>, values: seq<nat>)
    requires |payload| == 8 * |values|
    ensures PlainValues(payload) == values <==> AllU64(values) && payload == Words(values)
    decreases |values|
  {
    Pow256Values();
    if values != [] {
      var (first, rest) := (payload[..8], payload[8..]);
      LeOfFromLe(first);
      PlainOfWords(rest, values[1..]);
      assert payload == first + rest && values == [values[0]] + values[1..];
      if PlainValues(payload) == values {
        assert [FromLe(first)] + PlainValues(rest) == values;
        assert PlainValues(rest) == values[1..];
      }
      if AllU64(values) && payload == Words(values) {
        PlainRoundTrip(values);
      }
    }
  }

  /**
    Which payloads decode: under each codec exactly the one of the values at the width and from the base that the metadata
    declare.
  */
  lemma {:induction false} DecodeIff(codec: Codec, metadata: seq<byte>, payload: seq<byte>, values: seq<nat>)
    requires MetadataOk(codec, metadata, |values|)
    ensures Decode(codec, metadata, payload, |values|) == Some(values) <==>
            match codec
            case Bitpacked => |values| <= MAX_DECODED_VALUES && Bitpack.Encode(values, metadata[0]) == Some(payload)
            case DeltaBitpacked =>
              var deltas := DeltasFrom(Field(metadata, 1, 8), values);
              && AllU64(values) && |values| <= MAX_DECODED_VALUES
              && deltas.Some? && Bitpack.Encode(deltas.value, metadata[0]) == Some(payload)
            case DeltaVarint =>
              AllU64(values) && DeltasFrom(0, values).Some? && payload == Varint.EncodeAll(DeltasFrom(0, values).value)
            case Plain => AllU64(values) && payload == Words(values)
  {
    hide DeltasFrom, SumsFrom, Bitpack.Encode, Bitpack.Decode, Varint.DecodeFrom, Varint.EncodeAll, Words, PlainValues;
    hide AllU64, Field;
    match codec
    case Bitpacked => Bitpack.DecodeIff(payload, metadata[0], |values|, values);
    case DeltaBitpacked => DeltaBitpackIff(metadata, payload, values);
    case DeltaVarint => DeltaVarintIff(payload, values);
    case Plain =>
      if |payload| == 8 * |values| {
        PlainOfWords(payload, values);
      }
  }

  lemma {:induction false} PayloadCount(codec: Codec, metadata: seq<byte>, payload: seq<byte>, count: nat)
    requires MetadataOk(codec, metadata, count) && Decode(codec, metadata, payload, count).Some?
    ensures |Decode(codec, metadata, payload, count).value| == count
  {
    hide Bitpack.Encode, Bitpack.Decode, Varint.DecodeFrom, SumsFrom, DeltasFrom, Field;
    var values := Decode(codec, metadata, payload, count).value;
    if codec.Bitpacked? {
      Bitpack.DecodeIff(payload, metadata[0], count, values);
    } else if codec.DeltaBitpacked? {
      var deltas := Bitpack.Decode(payload, metadata[0], count).value;
      Bitpack.DecodeIff(payload, metadata[0], count, deltas);
      SumsIff(Field(metadata, 1, 8), deltas, values);
      DeltasLength(Field(metadata, 1, 8), values);
    }
  }

  lemma {:induction false} DeltaBitpackIff(metadata: seq<byte>, payload: seq<byte>, values: seq<nat>)
    requires MetadataOk(DeltaBitpacked, metadata, |values|)
    ensures Decode(DeltaBitpacked, metadata, payload, |values|) == Some(values) <==>
            var deltas := DeltasFrom(Field(metadata, 1, 8), values);
            && AllU64(values) && |values| <= MAX_DECODED_VALUES
            && deltas.Some? && Bitpack.Encode(deltas.value, metadata[0]) == Some(payload)
  {
    hide DeltasFrom, SumsFrom, Bitpack.Encode, Bitpack.Decode, AllU64, Field;
    var base := Field(metadata, 1, 8);
    var unpacked := Bitpack.Decode(payload, metadata[0], |values|);
    if unpacked.Some? {
      Bitpack.DecodeIff(payload, metadata[0], |values|, unpacked.value);
      SumsIff(base, unpacked.value, values);
    }
    if DeltasFrom(base, values).Some? {
      var deltas := DeltasFrom(base, values).value;
      DeltasLength(base, values);
      Bitpack.DecodeIff(payload, metadata[0], |values|, deltas);
      SumsIff(base, deltas, values);
    }
  }

  lemma {:induction false} DeltaVarintIff(payload: seq<byte>, values: seq<nat>)
    ensures (match Varint.DecodeFrom(payload, 0) case None => None case Some(deltas) => SumsFrom(0, deltas)) == Some(values) <==>
            AllU64(values) && DeltasFrom(0, values).Some? && payload == Varint.EncodeAll(DeltasFrom(0, values).value)
  {
    hide DeltasFrom, SumsFrom, Varint.DecodeFrom, Varint.EncodeAll;
    var read := Varint.DecodeFrom(payload, 0);
    if read.Some? {
      Varint.DecodeIff(payload, read.value);
      SumsIff(0, read.value, values);
    }
    if AllU64(values) && DeltasFrom(0, values).Some? {
      var deltas := DeltasFrom(0, values).value;
      SumsIff(0, deltas, values);
      DeltasLength(0, values);
      Varint.DecodeIff(payload, deltas);
    }
  }

  lemma {:induction false} WidthIsByte(values: seq<nat>)
    requires AllU64(values)
    ensures WidthOf(values) <= 64 && WidthByte(WidthOf(values)) == WidthOf(values)
  {
    WidthFits(values);
  }

  lemma {:induction false} DeltaBitpackRoundTrip(values: seq<nat>)
    requires AllU64(values) && |values| <= MAX_DECODED_VALUES
    requires Encode(DeltaBitpacked, values).Some?
    ensures MetadataOk(DeltaBitpacked, Encode(DeltaBitpacked, values).value.0, |values|)
    ensures Decode(DeltaBitpacked, Encode(DeltaBitpacked, values).value.0, Encode(DeltaBitpacked, values).value.1, |values|)
         == Some(values)
  {
    hide DeltasFrom, SumsFrom, Bitpack.Encode, Bitpack.Decode, RequiredWidth, Max, Le, Field;
    var base := if values == [] then 0 else values[0];
    var deltas := DeltasFrom(base, values).value;
    DeltasLength(base, values);
    WidthIsByte(deltas);
    BaseMetadata(WidthByte(WidthOf(deltas)), base, |values|);
    Bitpack.DecodeIff(Encode(DeltaBitpacked, values).value.1, WidthOf(deltas), |values|, deltas);
    SumsIff(base, deltas, values);
  }

  /** Exactly the non-decreasing lists have a delta encoding; the other two codecs take every list of 64-bit values. */
  lemma {:induction false} EncodeExists(codec: Codec, values: seq<nat>)
    requires AllU64(values) && 64 * |values| < U64_LIMIT
    ensures Encode(codec, values).Some? <==> (codec.Bitpacked? || codec.Plain? || NonDecreasing(values))
  {
    hide DeltasFrom, RequiredWidth, Max, Varint.EncodeAll, Pack;
    var base := if values == [] then 0 else values[0];
    DeltasExist(0, values);
    DeltasExist(base, values);
    NonDecreasingFront(0, values);
    NonDecreasingFront(base, values);
    match codec
    case Bitpacked => Packable(values);
    case DeltaBitpacked =>
      if DeltasFrom(base, values).Some? {
        DeltasLength(base, values);
        Packable(DeltasFrom(base, values).value);
      }
    case DeltaVarint =>
    case Plain =>
  }

  lemma {:induction false} Packable(values: seq<nat>)
    requires AllU64(values) && 64 * |values| < U64_LIMIT
    ensures Bitpack.Encode(values, WidthOf(values)).Some?
  {
    WidthFits(values);
    BitsInMemory(|values|, WidthOf(values));
  }

  lemma BitsInMemory(count: nat, width: nat)
    requires 64 * count < U64_LIMIT && width <= 64
    ensures count * width < U64_LIMIT
  {
    assert count * (64 - width) >= 0;
    assert count * 64 == count * width + count * (64 - width);
  }

  lemma {:induction false} NonDecreasingFront(base: nat, values: seq<nat>)
    requires base == 0 || values == [] || base == values[0]
    ensures NonDecreasing([base] + values) <==> NonDecreasing(values)
  {
    var all := [base] + values;
    if NonDecreasing(all) {
      forall i, j | 0 <= i < j < |values| ensures values[i] <= values[j] {
        assert all[i + 1] <= all[j + 1];
      }
    }
  }

  // ----- the loops with a running `previous` -----

  /** The loop of `encode_delta_bitpack` and, from zero, of `encode_delta_u64`. */
  method EncodeDeltas(base: nat, values: seq<u64>) returns (r: Option<seq<nat>>)
    ensures r == DeltasFrom(base, values)
  {
    var previous: nat, deltas: seq<nat> := base, [];
    PrefixedNothing(DeltasFrom(base, values));
    assert values[0..] == values;
    for i := 0 to |values|
      invariant DeltasFrom(base, values) == Prefixed(deltas, DeltasFrom(previous, values[i..]))
    {
      assert values[i..][0] == values[i] && values[i..][1..] == values[i + 1..];
      if values[i] < previous {
        return None;
      }
      PrefixedMore(deltas, values[i] - previous, DeltasFrom(values[i], values[i + 1..]));
      deltas := deltas + [values[i] - previous];
      previous := values[i];
    }
    assert deltas + [] == deltas;
    return Some(deltas);
  }

  /** The loop of `decode_delta_bitpack` and, from zero, of `decode_delta_u64`. */
  method DecodeDeltas(base: nat, deltas: seq<nat>) returns (r: Option<seq<nat>>)
    ensures r == SumsFrom(base, deltas)
  {
    var previous: nat, values: seq<nat> := base, [];
    PrefixedNothing(SumsFrom(base, deltas));
    assert deltas[0..] == deltas;
    for i := 0 to |deltas|
      invariant SumsFrom(base, deltas) == Prefixed(values, SumsFrom(previous, deltas[i..]))
    {
      assert deltas[i..][0] == deltas[i] && deltas[i..][1..] == deltas[i + 1..];
      if previous + deltas[i] >= U64_LIMIT {
        return None;
      }
      PrefixedMore(values, previous + deltas[i], SumsFrom(previous + deltas[i], deltas[i + 1..]));
      previous := previous + deltas[i];
      values := values + [previous];
    }
    assert values + [] == values;
    return Some(values);
  }

}
