/** The loops of the string codecs (crates/compact-core/src/codecs/v3/string.rs) against their specifications. */
module StringLoops {
  import opened Wrappers
  import opened Bytes
  import Strings
  import Utf8
  import Varint

  type Text = seq<byte>

  method EncodeStored(values: seq<Text>) returns (out: seq<byte>)
    ensures out == Strings.EncodeStored(values)
  {
    hide Varint.Encode;
    out := [];
    for i := 0 to |values|
      invariant Strings.EncodeStored(values) == out + Strings.EncodeStored(values[i..])
    {
      assert values[i..][0] == values[i] && values[i..][1..] == values[i + 1..];
      out := out + Varint.Encode(|values[i]|) + values[i];
    }
    assert out + [] == out;
  }

  /** One step of reading a length and that many bytes. */
  lemma {:induction false} ReadTextsStep(data: seq<byte>, pos: nat, count: nat, values: seq<Text>)
    requires count > 0
    ensures Strings.ReadText(data, pos) == None ==> PrefixedAt(values, Strings.ReadTexts(data, pos, count)) == None
    ensures Strings.ReadText(data, pos).Some? ==>
              (PrefixedAt(values, Strings.ReadTexts(data, pos, count))
               == PrefixedAt(values + [Strings.ReadText(data, pos).value.0],
                         Strings.ReadTexts(data, Strings.ReadText(data, pos).value.1, count - 1)))
  {
    hide Strings.ReadText;
    if Strings.ReadText(data, pos).Some? {
      var r := Strings.ReadText(data, pos).value;
      PrefixedAtMore(values, r.0, Strings.ReadTexts(data, r.1, count - 1));
    }
  }

  /** The reading loop of `decode_stored` and `decode_dictionary`. */
  method ReadTexts(data: seq<byte>, pos: nat, count: nat) returns (r: Option<(seq<Text>, nat)>)
    ensures r == Strings.ReadTexts(data, pos, count)
  {
    hide Strings.ReadTexts, Varint.Read, Utf8.Valid, PrefixedAt;
    var cursor: nat, values: seq<Text> := pos, [];
    PrefixedAtNothing(Strings.ReadTexts(data, pos, count));
    for i := 0 to count
      invariant Strings.ReadTexts(data, pos, count) == PrefixedAt(values, Strings.ReadTexts(data, cursor, count - i))
    {
      ReadTextsStep(data, cursor, count - i, values);
      var length := Varint.ReadU64(data, cursor);
      if length.None? {
        return None;
      }
      var (len, start) := length.value;
      if start + len > |data| {
        return None;
      }
      var bytes := data[start..start + len];
      if !Utf8.Valid(bytes) {
        return None;
      }
      values := values + [bytes];
      cursor := start + len;
    }
    ReadTextsDone(data, cursor);
    PrefixedAtEnd(values, cursor);
    return Some((values, cursor));
  }

  lemma {:induction false} ReadTextsDone(data: seq<byte>, pos: nat)
    ensures Strings.ReadTexts(data, pos, 0) == Some(([], pos))
    ensures forall previous :: Strings.ReadPrefixes(data, pos, previous, 0) == Some(([], pos))
  {
  }

  method DecodeStored(data: seq<byte>, count: nat) returns (r: Option<seq<Text>>)
    ensures r == Strings.DecodeStored(data, count)
  {
    hide Strings.ReadTexts;
    var read := ReadTexts(data, 0, count);
    if read.None? || read.value.1 != |data| {
      return None;
    }
    return Some(read.value.0);
  }

  method EncodePrefix(values: seq<Text>) returns (out: seq<byte>)
    ensures out == Strings.EncodePrefix([], values)
  {
    hide Strings.PrefixEntry;
    out := [];
    var previous: Text := [];
    assert values[0..] == values;
    for i := 0 to |values|
      invariant Strings.EncodePrefix([], values) == out + Strings.EncodePrefix(previous, values[i..])
    {
      assert values[i..][0] == values[i] && values[i..][1..] == values[i + 1..];
      var entry := EncodeEntry(previous, values[i]);
      assert out + (entry + Strings.EncodePrefix(values[i], values[i + 1..]))
          == (out + entry) + Strings.EncodePrefix(values[i], values[i + 1..]);
      out := out + entry;
      previous := values[i];
    }
    assert out + [] == out;
  }

  /** The shared prefix is counted byte by byte. */
  method EncodeEntry(previous: Text, value: Text) returns (entry: seq<byte>)
    ensures entry == Strings.PrefixEntry(previous, value)
  {
    hide Varint.Encode;
    var prefix := 0;
    while prefix < |previous| && prefix < |value| && previous[prefix] == value[prefix]
      invariant prefix <= |previous| && prefix <= |value|
      invariant Strings.CommonPrefix(previous, value) == prefix + Strings.CommonPrefix(previous[prefix..], value[prefix..])
    {
      assert previous[prefix..][1..] == previous[prefix + 1..] && value[prefix..][1..] == value[prefix + 1..];
      prefix := prefix + 1;
    }
    entry := Varint.Encode(prefix) + (Varint.Encode(|value| - prefix) + value[prefix..]);
  }

  lemma {:induction false} ReadPrefixesStep(data: seq<byte>, pos: nat, previous: Text, count: nat, values: seq<Text>)
    requires count > 0
    ensures Strings.ReadPrefixed(data, pos, previous) == None ==>
              PrefixedAt(values, Strings.ReadPrefixes(data, pos, previous, count)) == None
    ensures Strings.ReadPrefixed(data, pos, previous).Some? ==>
              (PrefixedAt(values, Strings.ReadPrefixes(data, pos, previous, count))
               == PrefixedAt(values + [Strings.ReadPrefixed(data, pos, previous).value.0],
                         Strings.ReadPrefixes(data, Strings.ReadPrefixed(data, pos, previous).value.1,
                                              Strings.ReadPrefixed(data, pos, previous).value.0, count - 1)))
  {
    hide Strings.ReadPrefixed;
    if Strings.ReadPrefixed(data, pos, previous).Some? {
      var r := Strings.ReadPrefixed(data, pos, previous).value;
      PrefixedAtMore(values, r.0, Strings.ReadPrefixes(data, r.1, r.0, count - 1));
    }
  }

  method DecodePrefix(data: seq<byte>, count: nat) returns (r: Option<seq<Text>>)
    ensures r == Strings.DecodePrefix(data, count)
  {
    hide Strings.ReadPrefixes, Varint.Read, Utf8.Valid, PrefixedAt;
    var cursor: nat, previous: Text, values: seq<Text> := 0, [], [];
    PrefixedAtNothing(Strings.ReadPrefixes(data, 0, [], count));
    for i := 0 to count
      invariant Strings.ReadPrefixes(data, 0, [], count)
             == PrefixedAt(values, Strings.ReadPrefixes(data, cursor, previous, count - i))
    {
      ReadPrefixesStep(data, cursor, previous, count - i, values);
      BehindNone(values);
      var first := Varint.ReadU64(data, cursor);
      if first.None? {
        return None;
      }
      var (prefix, middle) := first.value;
      var second := Varint.ReadU64(data, middle);
      if second.None? {
        return None;
      }
      var (suffixLen, start) := second.value;
      if prefix > |previous| || start + suffixLen > |data| {
        return None;
      }
      var current := previous[..prefix] + data[start..start + suffixLen];
      if !Utf8.Valid(current) {
        return None;
      }
      previous := current;
      values := values + [current];
      cursor := start + suffixLen;
    }
    ReadTextsDone(data, cursor);
    PrefixedAtEnd(values, cursor);
    if cursor != |data| {
      return None;
    }
    return Some(values);
  }

  lemma {:induction false} BehindNone(values: seq<Text>)
    ensures PrefixedAt<Text, nat>(values, None) == None
  {
  }

  /** The dictionary, the ids and the map from string to id built in one pass. */
  method EncodeDictionary(values: seq<Text>) returns (r: Option<seq<byte>>)
    ensures r == Strings.EncodeDictionary(values)
  {
    hide Strings.DictionaryOf, Varint.Encode, Varint.EncodeAll, Strings.EncodeStored;
    var dictionary: seq<Text>, ids: seq<nat> := [], [];
    var byValue: map<Text, nat> := map[];
    DictionaryStart(values);
    for i := 0 to |values|
      invariant dictionary == Strings.DictionaryOf(values[..i])
      invariant |dictionary| <= Strings.MAX_DICTIONARY_ENTRIES
      invariant forall v :: v in byValue ==> byValue[v] < |dictionary| && dictionary[byValue[v]] == v
      invariant forall k :: 0 <= k < |dictionary| ==> dictionary[k] in byValue
      invariant |ids| == i && forall k :: 0 <= k < i ==> ids[k] < |dictionary| && dictionary[ids[k]] == values[k]
    {
      DictionarySnoc(values, i);
      var value := values[i];
      if value in byValue {
        ids := ids + [byValue[value]];
      } else {
        if |dictionary| >= Strings.MAX_DICTIONARY_ENTRIES {
          DictionaryGrows(values, i + 1);
          return None;
        }
        ids := ids + [|dictionary|];
        byValue := byValue[value := |dictionary|];
        dictionary := dictionary + [value];
      }
    }
    assert values[..|values|] == values;
    IdsUnique(values, ids);
    return Some(Varint.Encode(|dictionary|) + (Strings.EncodeStored(dictionary) + Varint.EncodeAll(ids)));
  }

  lemma {:induction false} DictionaryStart(values: seq<Text>)
    ensures Strings.DictionaryOf(values[..0]) == []
  {
  }

  lemma {:induction false} DictionarySnoc(values: seq<Text>, i: nat)
    requires i < |values|
    ensures Strings.DictionaryOf(values[..i + 1])
         == if values[i] in Strings.DictionaryOf(values[..i]) then Strings.DictionaryOf(values[..i])
            else Strings.DictionaryOf(values[..i]) + [values[i]]
  {
    assert values[..i + 1][..i] == values[..i];
  }

  lemma {:induction false} DictionaryGrows(values: seq<Text>, i: nat)
    requires i <= |values|
    ensures |Strings.DictionaryOf(values[..i])| <= |Strings.DictionaryOf(values)|
    decreases |values| - i
  {
    hide Strings.DictionaryOf;
    if i < |values| {
      DictionarySnoc(values, i);
      DictionaryGrows(values, i + 1);
    } else {
      assert values[..i] == values;
    }
  }

  /** The dictionary has no duplicates, so ids that name the right strings are the ids. */
  lemma {:induction false} IdsUnique(values: seq<Text>, ids: seq<nat>)
    requires |ids| == |values|
    requires forall k :: 0 <= k < |ids| ==>
               ids[k] < |Strings.DictionaryOf(values)| && Strings.DictionaryOf(values)[ids[k]] == values[k]
    ensures ids == Strings.Ids(values)
  {
    hide Strings.DictionaryOf;
    Strings.DictionarySound(values);
    Strings.DictionaryCoversAll(values);
  }
}
