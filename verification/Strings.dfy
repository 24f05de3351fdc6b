/** The four payload codecs of a string column (crates/compact-core/src/codecs/v3/string.rs). */
module Strings {
  import opened Wrappers
  import opened Bytes
  import opened Limits
  import Utf8
  import Rle
  import Varint

  datatype Codec = Prefix | Dictionary | RunLength | Plain

  const MAX_DICTIONARY_ENTRIES: nat := 4096

  type Text = seq<byte>

  // ----- stored -----

  function EncodeStored(values: seq<Text>): seq<byte> {
    if values == [] then [] else (Varint.Encode(|values[0]|) + values[0]) + EncodeStored(values[1..])
  }

  /** One length-prefixed string at `pos` and the position behind it. */
  function ReadText(data: seq<byte>, pos: nat): Option<(Text, nat)> {
    match Varint.Read(data, pos)
    case None => None
    case Some((len, start)) =>
      if start + len > |data| then None
      else if !Utf8.Valid(data[start..start + len]) then None
      else Some((data[start..start + len], start + len))
  }

  function ReadTexts(data: seq<byte>, pos: nat, count: nat): Option<(seq<Text>, nat)>
    decreases count
  {
    if count == 0 then Some(([], pos))
    else
      match ReadText(data, pos)
      case None => None
      case Some((text, next)) =>
        match ReadTexts(data, next, count - 1)
        case None => None
        case Some((rest, end)) => Some(([text] + rest, end))
  }

  function DecodeStored(data: seq<byte>, count: nat): Option<seq<Text>> {
    match ReadTexts(data, 0, count)
    case None => None
    case Some((values, end)) => if end != |data| then None else Some(values)
  }

  lemma {:induction false} ReadTextIff(data: seq<byte>, pos: nat, text: Text, next: nat)
    requires |data| < U64_LIMIT
    ensures ReadText(data, pos) == Some((text, next)) <==>
            Utf8.Valid(text) && At(data, pos, Varint.Encode(|text|) + text) && next == pos + |Varint.Encode(|text|) + text|
  {
    hide Utf8.Valid, Varint.Read, Varint.Encode, At;
    AtConcat(data, pos, Varint.Encode(|text|), text);
    var start := pos + |Varint.Encode(|text|)|;
    Varint.ReadIff(data, pos, |text|, start);
    if Varint.Read(data, pos).Some? {
      var r := Varint.Read(data, pos).value;
      Varint.ReadIff(data, pos, r.0, r.1);
    }
    AtSlice(data, start, text);
  }

  lemma {:induction false} ReadTextsIff(data: seq<byte>, pos: nat, values: seq<Text>, end: nat)
    requires |data| < U64_LIMIT
    ensures ReadTexts(data, pos, |values|) == Some((values, end)) && pos <= |data| <==>
            Utf8.AllValid(values) && At(data, pos, EncodeStored(values)) && end == pos + |EncodeStored(values)|
    decreases |values|
  {
    hide Utf8.AllValid, Utf8.Valid, ReadText, At, Varint.Encode;
    if values == [] {
      AtEmpty(data, pos);
    } else {
      var first := Varint.Encode(|values[0]|) + values[0];
      AtConcat(data, pos, first, EncodeStored(values[1..]));
      Utf8.AllValidCons(values);
      ReadTextIff(data, pos, values[0], pos + |first|);
      AtSlice(data, pos, first);
      ReadTextsIff(data, pos + |first|, values[1..], end);
      if ReadText(data, pos).Some? {
        var r := ReadText(data, pos).value;
        ReadTextIff(data, pos, r.0, r.1);
        assert |values[1..]| == |values| - 1;
      }
      assert values == [values[0]] + values[1..];
    }
  }

  lemma {:induction false} AtEmpty(data: seq<byte>, pos: nat)
    ensures At(data, pos, []) <==> pos <= |data|
    ensures Utf8.AllValid([])
  {
  }

  /** Stored payloads are canonical: exactly one byte string decodes to a given list of strings. */
  lemma {:induction false} DecodeStoredIff(data: seq<byte>, values: seq<Text>)
    requires |data| < U64_LIMIT
    ensures DecodeStored(data, |values|) == Some(values) <==> Utf8.AllValid(values) && data == EncodeStored(values)
  {
    hide Utf8.AllValid, ReadTexts, EncodeStored;
    ReadTextsIff(data, 0, values, |data|);
    AtCovers(data, EncodeStored(values), []);
    assert EncodeStored(values) + [] == EncodeStored(values);
    AtConcat(data, 0, EncodeStored(values), []);
  }

  function RawSize(values: seq<Text>): nat {
    if values == [] then 0 else |values[0]| + RawSize(values[1..])
  }

  lemma {:induction false} EncodedLenBound(v: nat, groups: nat)
    requires v < Varint.Pow128(groups) && groups > 0
    ensures Varint.EncodedLen(v) <= groups
    decreases groups
  {
    if v >= 0x80 {
      EncodedLenBound(v / 0x80, groups - 1);
    }
  }

  lemma VarintAtMostTen(v: nat)
    requires v < U64_LIMIT
    ensures |Varint.Encode(v)| <= 10
  {
    assert Varint.Pow128(2) == 0x4000 && Varint.Pow128(4) == 0x1000_0000 && Varint.Pow128(6) == 0x400_0000_0000;
    assert Varint.Pow128(8) == 0x100_0000_0000_0000 && Varint.Pow128(10) == 0x40_0000_0000_0000_0000;
    EncodedLenBound(v, 10);
    assert Varint.EncodedLen(v) == |Varint.Encode(v)|;
  }

  ghost predicate AllSized(values: seq<Text>) {
    forall k :: 0 <= k < |values| ==> |values[k]| < U64_LIMIT
  }

  /** A stored payload spends one to ten bytes per value on top of the strings: the bounds both decoder guards rely on. */
  lemma {:induction false} StoredSize(values: seq<Text>)
    requires AllSized(values)
    ensures RawSize(values) + |values| <= |EncodeStored(values)| <= RawSize(values) + 10 * |values|
  {
    hide Varint.Encode;
    if values != [] {
      StoredSize(values[1..]);
      VarintAtMostTen(|values[0]|);
    }
  }

  // ----- prefix -----

  function CommonPrefix(a: Text, b: Text): (n: nat)
    ensures n <= |a| && n <= |b|
  {
    if a == [] || b == [] || a[0] != b[0] then 0 else 1 + CommonPrefix(a[1..], b[1..])
  }

  lemma {:induction false} CommonPrefixIs(a: Text, b: Text)
    ensures a[..CommonPrefix(a, b)] == b[..CommonPrefix(a, b)]
    ensures CommonPrefix(a, b) < |a| && CommonPrefix(a, b) < |b| ==> a[CommonPrefix(a, b)] != b[CommonPrefix(a, b)]
  {
    var n := CommonPrefix(a, b);
    if n > 0 {
      CommonPrefixIs(a[1..], b[1..]);
      assert a[..n] == [a[0]] + a[1..][..n - 1] && b[..n] == [b[0]] + b[1..][..n - 1];
    }
  }

  function PrefixEntry(previous: Text, value: Text): seq<byte> {
    var n := CommonPrefix(previous, value);
    Varint.Encode(n) + (Varint.Encode(|value| - n) + value[n..])
  }

  /** The entry that shares `n` bytes with the string before it. */
  function SharedEntry(value: Text, n: nat): seq<byte>
    requires n <= |value|
  {
    Varint.Encode(n) + (Varint.Encode(|value| - n) + value[n..])
  }

  /** A greater number needs at most as many more groups as it is greater. */
  lemma {:induction false} EncodedLenGrows(m: nat, n: nat)
    requires m <= n
    ensures Varint.EncodedLen(m) <= Varint.EncodedLen(n) <= Varint.EncodedLen(m) + (n - m)
    decreases n
  {
    if m >= 0x80 {
      EncodedLenGrows(m / 0x80, n / 0x80);
    } else if n >= 0x80 {
      EncodedLenGrows(0, n / 0x80);
    }
  }

  /** Whatever two strings share is within their longest common prefix. */
  lemma {:induction false} SharedIsCommon(a: Text, b: Text, n: nat)
    requires n <= |a| && n <= |b| && a[..n] == b[..n]
    ensures n <= CommonPrefix(a, b)
  {
    if n > 0 {
      assert a[0] == a[..n][0] == b[..n][0];
      assert a[1..][..n - 1] == a[..n][1..] && b[1..][..n - 1] == b[..n][1..];
      SharedIsCommon(a[1..], b[1..], n - 1);
    }
  }

  lemma {:induction false} SharedEntrySize(value: Text, n: nat)
    requires n <= |value|
    ensures |SharedEntry(value, n)| == Varint.EncodedLen(n) + Varint.EncodedLen(|value| - n) + (|value| - n)
  {
    hide Varint.Encode, Varint.EncodedLen;
    assert Varint.EncodedLen(n) == |Varint.Encode(n)| && Varint.EncodedLen(|value| - n) == |Varint.Encode(|value| - n)|;
  }

  /** No other shared prefix gives a shorter entry. */
  lemma {:induction false} PrefixEntryShortest(previous: Text, value: Text, n: nat)
    requires n <= |previous| && n <= |value| && previous[..n] == value[..n]
    ensures PrefixEntry(previous, value) == SharedEntry(value, CommonPrefix(previous, value))
    ensures |PrefixEntry(previous, value)| <= |SharedEntry(value, n)|
  {
    hide Varint.Encode, Varint.EncodedLen, CommonPrefix;
    var longest := CommonPrefix(previous, value);
    SharedIsCommon(previous, value, n);
    SharedEntrySize(value, n);
    SharedEntrySize(value, longest);
    EncodedLenGrows(n, longest);
    EncodedLenGrows(|value| - longest, |value| - n);
  }

  function EncodePrefix(previous: Text, values: seq<Text>): seq<byte>
    decreases |values|
  {
    if values == [] then [] else PrefixEntry(previous, values[0]) + EncodePrefix(values[0], values[1..])
  }

  /** One prefix-coded string at `pos`, given the one before it. */
  function ReadPrefixed(data: seq<byte>, pos: nat, previous: Text): Option<(Text, nat)> {
    match Varint.Read(data, pos)
    case None => None
    case Some((prefix, middle)) =>
      match Varint.Read(data, middle)
      case None => None
      case Some((len, start)) =>
        if prefix > |previous| || start + len > |data| then None
        else
          var value := previous[..prefix] + data[start..start + len];
          if !Utf8.Valid(value) then None else Some((value, start + len))
  }

  function ReadPrefixes(data: seq<byte>, pos: nat, previous: Text, count: nat): Option<(seq<Text>, nat)>
    decreases count
  {
    if count == 0 then Some(([], pos))
    else
      match ReadPrefixed(data, pos, previous)
      case None => None
      case Some((value, next)) =>
        match ReadPrefixes(data, next, value, count - 1)
        case None => None
        case Some((rest, end)) => Some(([value] + rest, end))
  }

  function DecodePrefix(data: seq<byte>, count: nat): Option<seq<Text>> {
    match ReadPrefixes(data, 0, [], count)
    case None => None
    case Some((values, end)) => if end != |data| then None else Some(values)
  }

  lemma {:induction false} ReadsPrefixed(data: seq<byte>, pos: nat, previous: Text, value: Text)
    requires |data| < U64_LIMIT && |value| < U64_LIMIT && Utf8.Valid(value) && At(data, pos, PrefixEntry(previous, value))
    ensures ReadPrefixed(data, pos, previous) == Some((value, pos + |PrefixEntry(previous, value)|))
  {
    hide Utf8.Valid, Varint.Read, Varint.Encode, At;
    var n := CommonPrefix(previous, value);
    var (a, b) := (Varint.Encode(n), Varint.Encode(|value| - n));
    AtConcat(data, pos, a, b + value[n..]);
    AtConcat(data, pos + |a|, b, value[n..]);
    var start := pos + |a| + |b|;
    AtSlice(data, start, value[n..]);
    Varint.ReadIff(data, pos, n, pos + |a|);
    Varint.ReadIff(data, pos + |a|, |value| - n, start);
    CommonPrefixIs(previous, value);
    assert previous[..n] + value[n..] == value;
  }

  lemma {:induction false} ReadsPrefixes(data: seq<byte>, pos: nat, previous: Text, values: seq<Text>)
    requires |data| < U64_LIMIT && AllSized(values) && Utf8.AllValid(values) && At(data, pos, EncodePrefix(previous, values))
    ensures ReadPrefixes(data, pos, previous, |values|) == Some((values, pos + |EncodePrefix(previous, values)|))
    decreases |values|
  {
    hide Utf8.AllValid, Utf8.Valid, PrefixEntry, ReadPrefixed, At;
    if values != [] {
      var first := PrefixEntry(previous, values[0]);
      AtConcat(data, pos, first, EncodePrefix(values[0], values[1..]));
      Utf8.AllValidCons(values);
      ReadsPrefixed(data, pos, previous, values[0]);
      forall k | 0 <= k < |values[1..]| ensures |values[1..][k]| < U64_LIMIT {
        assert values[1..][k] == values[k + 1];
      }
      ReadsPrefixes(data, pos + |first|, values[0], values[1..]);
      assert values == [values[0]] + values[1..];
    }
  }

  lemma {:induction false} PrefixRoundTrip(values: seq<Text>)
    requires AllSized(values) && Utf8.AllValid(values) && |EncodePrefix([], values)| < U64_LIMIT
    ensures DecodePrefix(EncodePrefix([], values), |values|) == Some(values)
  {
    hide EncodePrefix, ReadPrefixes, Utf8.AllValid, AllSized;
    var data := EncodePrefix([], values);
    assert data[0..|data|] == data;
    ReadsPrefixes(data, 0, [], values);
  }

  /** Prefix-coded strings with any lengths of the shared prefixes. */
  function SharedEntries(values: seq<Text>, shared: seq<nat>): seq<byte>
    requires |shared| == |values| && forall k :: 0 <= k < |values| ==> shared[k] <= |values[k]|
    decreases |values|
  {
    if values == [] then [] else SharedEntry(values[0], shared[0]) + SharedEntries(values[1..], shared[1..])
  }

  /** Each string begins with as much of the one before it as its entry says. */
  ghost predicate Sharing(previous: Text, values: seq<Text>, shared: seq<nat>)
    decreases |values|
  {
    && |shared| == |values|
    && (values == [] ||
        (&& shared[0] <= |previous| && shared[0] <= |values[0]| && previous[..shared[0]] == values[0][..shared[0]]
         && Sharing(values[0], values[1..], shared[1..])))
  }

  lemma {:induction false} SharingFits(previous: Text, values: seq<Text>, shared: seq<nat>)
    requires Sharing(previous, values, shared)
    ensures |shared| == |values| && forall k :: 0 <= k < |values| ==> shared[k] <= |values[k]|
    decreases |values|
  {
    if values != [] {
      SharingFits(values[0], values[1..], shared[1..]);
      assert values == [values[0]] + values[1..] && shared == [shared[0]] + shared[1..];
    }
  }

  lemma {:induction false} PrefixedRead(data: seq<byte>, pos: nat, previous: Text) returns (n: nat)
    requires |data| < U64_LIMIT && ReadPrefixed(data, pos, previous).Some?
    ensures var (value, next) := ReadPrefixed(data, pos, previous).value;
            && n <= |previous| && n <= |value| && previous[..n] == value[..n] && Utf8.Valid(value) && n < U64_LIMIT
            && At(data, pos, SharedEntry(value, n)) && next == pos + |SharedEntry(value, n)|
  {
    hide Utf8.Valid, Varint.Read, Varint.Encode, At;
    var (prefix, middle) := Varint.Read(data, pos).value;
    var (len, start) := Varint.Read(data, middle).value;
    n := prefix;
    Varint.ReadIff(data, pos, prefix, middle);
    Varint.ReadIff(data, middle, len, start);
    var rest := data[start..start + len];
    var value := previous[..prefix] + rest;
    assert value[n..] == rest && |value| - n == len && value[..n] == previous[..n];
    AtSlice(data, start, rest);
    AtConcat(data, middle, Varint.Encode(len), rest);
    AtConcat(data, pos, Varint.Encode(n), Varint.Encode(len) + rest);
  }

  lemma {:induction false} ReadsShared(data: seq<byte>, pos: nat, previous: Text, value: Text, n: nat)
    requires |data| < U64_LIMIT && n <= |previous| && n <= |value| && previous[..n] == value[..n] && Utf8.Valid(value)
    requires At(data, pos, SharedEntry(value, n)) && n < U64_LIMIT
    ensures ReadPrefixed(data, pos, previous) == Some((value, pos + |SharedEntry(value, n)|))
  {
    hide Utf8.Valid, Varint.Read, Varint.Encode, At;
    var (a, b, rest) := (Varint.Encode(n), Varint.Encode(|value| - n), value[n..]);
    AtConcat(data, pos, a, b + rest);
    AtConcat(data, pos + |a|, b, rest);
    var start := pos + |a| + |b|;
    AtSlice(data, start, rest);
    Varint.ReadIff(data, pos, n, pos + |a|);
    Varint.ReadIff(data, pos + |a|, |value| - n, start);
    assert previous[..n] + rest == value;
  }

  lemma {:induction false} PrefixesRead(data: seq<byte>, pos: nat, previous: Text,
                                        count: nat) returns (shared: seq<nat>)
    requires |data| < U64_LIMIT && pos <= |data| && ReadPrefixes(data, pos, previous, count).Some?
    ensures var (values, end) := ReadPrefixes(data, pos, previous, count).value;
            && |values| == count && Utf8.AllValid(values) && Sharing(previous, values, shared) && |shared| == count
            && (forall k :: 0 <= k < count ==> shared[k] <= |values[k]| && shared[k] < U64_LIMIT)
            && At(data, pos, SharedEntries(values, shared)) && end == pos + |SharedEntries(values, shared)|
    decreases count
  {
    hide ReadPrefixed, At, Utf8.Valid, SharedEntry;
    if count == 0 {
      shared := [];
      AtNothing(data, pos);
    } else {
      var (value, next) := ReadPrefixed(data, pos, previous).value;
      var n := PrefixedRead(data, pos, previous);
      AtInside(data, pos, SharedEntry(value, n));
      var more := PrefixesRead(data, next, value, count - 1);
      var rest := ReadPrefixes(data, next, value, count - 1).value.0;
      shared := [n] + more;
      var values := [value] + rest;
      assert values[1..] == rest && shared[1..] == more;
      Utf8.AllValidCons(values);
      SharingFits(previous, values, shared);
      AtConcat(data, pos, SharedEntry(value, n), SharedEntries(rest, more));
    }
  }

  lemma {:induction false} ReadsSharedAll(data: seq<byte>, pos: nat, previous: Text, values: seq<Text>,
                                          shared: seq<nat>)
    requires |data| < U64_LIMIT && Utf8.AllValid(values) && Sharing(previous, values, shared) && |shared| == |values|
    requires forall k :: 0 <= k < |values| ==> shared[k] <= |values[k]| && shared[k] < U64_LIMIT
    requires At(data, pos, SharedEntries(values, shared))
    ensures ReadPrefixes(data, pos, previous, |values|) == Some((values, pos + |SharedEntries(values, shared)|))
    decreases |values|
  {
    hide ReadPrefixed, At, Utf8.Valid, SharedEntry, Utf8.AllValid;
    if values != [] {
      var (value, rest, more) := (values[0], values[1..], shared[1..]);
      Utf8.AllValidCons(values);
      AtConcat(data, pos, SharedEntry(value, shared[0]), SharedEntries(rest, more));
      ReadsShared(data, pos, previous, value, shared[0]);
      forall k | 0 <= k < |rest| ensures more[k] <= |rest[k]| && more[k] < U64_LIMIT {
        assert more[k] == shared[k + 1] && rest[k] == values[k + 1];
      }
      ReadsSharedAll(data, pos + |SharedEntry(value, shared[0])|, value, rest, more);
      assert values == [value] + rest;
    }
  }

  /** Prefix-coded payloads decode exactly when they are entries of these strings, sharing prefixes of whatever length. */
  lemma {:induction false} DecodePrefixIff(data: seq<byte>, values: seq<Text>)
    requires |data| < U64_LIMIT
    ensures DecodePrefix(data, |values|) == Some(values) <==>
            && Utf8.AllValid(values)
            && exists shared :: && Sharing([], values, shared) && |shared| == |values|
                                && (forall k :: 0 <= k < |values| ==> shared[k] <= |values[k]| && shared[k] < U64_LIMIT)
                                && data == SharedEntries(values, shared)
  {
    hide ReadPrefixes, Utf8.AllValid, Sharing, SharedEntries, At;
    if DecodePrefix(data, |values|) == Some(values) {
      var shared := PrefixesRead(data, 0, [], |values|);
      AtInside(data, 0, SharedEntries(values, shared));
      assert data[0..|data|] == data;
    }
    if shared :| && Sharing([], values, shared) && |shared| == |values|
                 && (forall k :: 0 <= k < |values| ==> shared[k] <= |values[k]| && shared[k] < U64_LIMIT)
                 && data == SharedEntries(values, shared) {
      if Utf8.AllValid(values) {
        AtWhole(data);
        ReadsSharedAll(data, 0, [], values, shared);
      }
    }
  }

  lemma {:induction false} PrefixSize(previous: Text, values: seq<Text>)
    ensures |EncodePrefix(previous, values)| >= |values|
    decreases |values|
  {
    if values != [] {
      PrefixSize(values[0], values[1..]);
    }
  }

  // ----- dictionary -----

  /** The distinct strings in the order of their first occurrence. */
  function DictionaryOf(values: seq<Text>): (d: seq<Text>)
    ensures |d| <= |values|
  {
    if values == [] then []
    else
      var d, last := DictionaryOf(values[..|values| - 1]), values[|values| - 1];
      if last in d then d else d + [last]
  }

  /** The position of a string in a list that has it. */
  function Position(d: seq<Text>, v: Text): (k: nat)
    requires v in d
    ensures k < |d| && d[k] == v
  {
    if d[0] == v then 0 else 1 + Position(d[1..], v)
  }

  lemma {:induction false} DictionaryCovers(values: seq<Text>, k: nat)
    requires k < |values|
    ensures values[k] in DictionaryOf(values)
    decreases |values|
  {
    var front := values[..|values| - 1];
    if k < |front| {
      DictionaryCovers(front, k);
      assert front[k] == values[k];
    }
  }

  function IdsOf(d: seq<Text>, values: seq<Text>): (ids: seq<nat>)
    requires forall k :: 0 <= k < |values| ==> values[k] in d
    ensures |ids| == |values|
    ensures forall k :: 0 <= k < |ids| ==> ids[k] < |d| && d[ids[k]] == values[k]
  {
    seq(|values|, k requires 0 <= k < |values| => Position(d, values[k]))
  }

  function Ids(values: seq<Text>): (ids: seq<nat>)
    ensures |ids| == |values|
  {
    DictionaryCoversAll(values);
    IdsOf(DictionaryOf(values), values)
  }

  lemma {:induction false} DictionaryCoversAll(values: seq<Text>)
    ensures forall k :: 0 <= k < |values| ==> values[k] in DictionaryOf(values)
  {
    forall k | 0 <= k < |values| ensures values[k] in DictionaryOf(values) {
      DictionaryCovers(values, k);
    }
  }

  function DictionaryBytes(d: seq<Text>, ids: seq<nat>): seq<byte> {
    Varint.Encode(|d|) + (EncodeStored(d) + Varint.EncodeAll(ids))
  }

  function EncodeDictionary(values: seq<Text>): Option<seq<byte>> {
    if |DictionaryOf(values)| > MAX_DICTIONARY_ENTRIES then None
    else Some(DictionaryBytes(DictionaryOf(values), Ids(values)))
  }

  /** Every id looked up; None when one is out of range. */
  function LookUp(d: seq<Text>, ids: seq<nat>): Option<seq<Text>> {
    if exists k :: 0 <= k < |ids| && ids[k] >= |d| then None
    else Some(seq(|ids|, k requires 0 <= k < |ids| && ids[k] < |d| => d[ids[k]]))
  }

  function DecodeDictionary(data: seq<byte>, count: nat): Option<seq<Text>> {
    match Varint.Read(data, 0)
    case None => None
    case Some((size, next)) =>
      if size > MAX_DICTIONARY_ENTRIES then None
      else
        match ReadTexts(data, next, size)
        case None => None
        case Some((d, cursor)) =>
          match Varint.DecodeFrom(data, cursor)
          case None => None
          case Some(ids) => if |ids| != count then None else LookUp(d, ids)
  }

  lemma {:induction false} DictionarySound(values: seq<Text>)
    ensures Utf8.AllValid(values) ==> Utf8.AllValid(DictionaryOf(values))
    ensures forall k :: 0 <= k < |DictionaryOf(values)| ==> DictionaryOf(values)[k] in values
    ensures forall i, j :: 0 <= i < j < |DictionaryOf(values)| ==> DictionaryOf(values)[i] != DictionaryOf(values)[j]
  {
    hide Utf8.Valid;
    if values != [] {
      var front := values[..|values| - 1];
      DictionarySound(front);
      assert forall v :: v in front ==> v in values;
    }
  }

  /** What the dictionary of the first strings has stays in front: strings are numbered by their first occurrence. */
  lemma {:induction false} DictionaryInOrder(values: seq<Text>, m: nat)
    requires m <= |values|
    ensures DictionaryOf(values[..m]) <= DictionaryOf(values)
    decreases |values|
  {
    if m < |values| {
      var front := values[..|values| - 1];
      DictionaryInOrder(front, m);
      assert front[..m] == values[..m];
    } else {
      assert values[..m] == values;
    }
  }

  /** The dictionary has as many entries as there are different strings. */
  lemma {:induction false} DictionaryCount(values: seq<Text>)
    ensures |DictionaryOf(values)| == |set v | v in values|
    decreases |values|
  {
    if values == [] {
      assert (set v | v in values) == {};
    } else {
      var (front, last) := (values[..|values| - 1], values[|values| - 1]);
      DictionaryCount(front);
      DictionarySound(front);
      DictionaryCoversAll(front);
      assert values == front + [last];
      assert (set v | v in values) == (set v | v in front) + {last};
    }
  }

  lemma {:induction false} DictionaryRoundTrip(values: seq<Text>)
    requires Utf8.AllValid(values) && EncodeDictionary(values).Some? && |EncodeDictionary(values).value| < U64_LIMIT
    ensures DecodeDictionary(EncodeDictionary(values).value, |values|) == Some(values)
  {
    hide DictionaryOf, Varint.Encode, Varint.EncodeAll, EncodeStored, ReadTexts, Varint.DecodeFrom, Varint.Read;
    hide Utf8.AllValid, At;
    var (d, ids) := (DictionaryOf(values), Ids(values));
    var data := EncodeDictionary(values).value;
    var (a, b, c) := (Varint.Encode(|d|), EncodeStored(d), Varint.EncodeAll(ids));
    DictionarySound(values);
    AtWhole(data);
    AtConcat(data, 0, a, b + c);
    AtConcat(data, |a|, b, c);
    Varint.ReadIff(data, 0, |d|, |a|);
    ReadTextsIff(data, |a|, d, |a| + |b|);
    IdsAreSmall(values);
    Varint.DecodeFromIff(data, |a| + |b|, ids);
    LookUpIds(values);
  }

  /** Dictionary payloads decode exactly when they are a dictionary and references into it that give these strings. */
  lemma {:induction false} DecodeDictionaryIff(data: seq<byte>, values: seq<Text>)
    requires |data| < U64_LIMIT
    ensures DecodeDictionary(data, |values|) == Some(values) <==>
            exists d, ids :: && |d| <= MAX_DICTIONARY_ENTRIES && Utf8.AllValid(d) && AllU64(ids)
                             && LookUp(d, ids) == Some(values) && data == DictionaryBytes(d, ids)
  {
    hide Varint.Encode, Varint.EncodeAll, EncodeStored, ReadTexts, Varint.DecodeFrom, Varint.Read, Utf8.AllValid;
    hide LookUp, AllU64, DictionaryBytes;
    if DecodeDictionary(data, |values|) == Some(values) {
      DictionaryRead(data, |values|);
    }
    if d, ids :| && |d| <= MAX_DICTIONARY_ENTRIES && Utf8.AllValid(d) && AllU64(ids)
                 && LookUp(d, ids) == Some(values) && data == DictionaryBytes(d, ids) {
      LookedUpAll(d, ids);
      DictionaryReads(d, ids);
    }
  }

  lemma {:induction false} LookedUpAll(d: seq<Text>, ids: seq<nat>)
    requires LookUp(d, ids).Some?
    ensures |LookUp(d, ids).value| == |ids|
    ensures forall k :: 0 <= k < |ids| ==> ids[k] < |d| && LookUp(d, ids).value[k] == d[ids[k]]
  {
  }

  lemma {:induction false} DictionaryRead(data: seq<byte>, count: nat)
    requires |data| < U64_LIMIT && DecodeDictionary(data, count).Some?
    ensures exists d, ids :: && |d| <= MAX_DICTIONARY_ENTRIES && Utf8.AllValid(d) && AllU64(ids)
                             && LookUp(d, ids) == DecodeDictionary(data, count) && data == DictionaryBytes(d, ids)
  {
    hide Varint.Encode, Varint.EncodeAll, EncodeStored, ReadTexts, Varint.DecodeFrom, Varint.Read, Utf8.AllValid;
    hide LookUp, AllU64, At;
    var (size, next) := Varint.Read(data, 0).value;
    Varint.ReadIff(data, 0, size, next);
    Varint.ReadProgress(data, 0);
    var (d, cursor) := ReadTexts(data, next, size).value;
    TextsLength(data, next, size);
    ReadTextsIff(data, next, d, cursor);
    AtInside(data, next, EncodeStored(d));
    var ids := Varint.DecodeFrom(data, cursor).value;
    Varint.DecodeFromIff(data, cursor, ids);
    AtConcat(data, next, EncodeStored(d), Varint.EncodeAll(ids));
    AtConcat(data, 0, Varint.Encode(size), EncodeStored(d) + Varint.EncodeAll(ids));
    AtInside(data, 0, DictionaryBytes(d, ids));
    assert data[0..|data|] == data;
  }

  lemma {:induction false} TextsLength(data: seq<byte>, pos: nat, count: nat)
    requires ReadTexts(data, pos, count).Some?
    ensures |ReadTexts(data, pos, count).value.0| == count
    decreases count
  {
    hide ReadText;
    if count > 0 {
      TextsLength(data, ReadText(data, pos).value.1, count - 1);
    }
  }

  lemma {:induction false} DictionaryReads(d: seq<Text>, ids: seq<nat>)
    requires |d| <= MAX_DICTIONARY_ENTRIES && Utf8.AllValid(d) && AllU64(ids) && |DictionaryBytes(d, ids)| < U64_LIMIT
    ensures DecodeDictionary(DictionaryBytes(d, ids), |ids|) == LookUp(d, ids)
  {
    hide Varint.Encode, Varint.EncodeAll, EncodeStored, ReadTexts, Varint.DecodeFrom, Varint.Read, Utf8.AllValid;
    hide LookUp, AllU64, At;
    var data := DictionaryBytes(d, ids);
    var (a, b, c) := (Varint.Encode(|d|), EncodeStored(d), Varint.EncodeAll(ids));
    AtWhole(data);
    AtConcat(data, 0, a, b + c);
    AtConcat(data, |a|, b, c);
    Varint.ReadIff(data, 0, |d|, |a|);
    ReadTextsIff(data, |a|, d, |a| + |b|);
    Varint.DecodeFromIff(data, |a| + |b|, ids);
  }

  lemma {:induction false} IdsAreSmall(values: seq<Text>)
    requires |DictionaryOf(values)| <= MAX_DICTIONARY_ENTRIES
    ensures AllU64(Ids(values))
  {
    DictionaryCoversAll(values);
  }

  lemma {:induction false} LookUpIds(values: seq<Text>)
    ensures LookUp(DictionaryOf(values), Ids(values)) == Some(values)
  {
    hide DictionaryOf;
    DictionaryCoversAll(values);
    var (d, ids) := (DictionaryOf(values), Ids(values));
    assert LookUp(d, ids).Some?;
    assert LookUp(d, ids).value == values;
  }

  lemma {:induction false} EncodeAllSize(vs: seq<nat>)
    ensures |Varint.EncodeAll(vs)| >= |vs|
  {
    if vs != [] {
      EncodeAllSize(vs[1..]);
    }
  }

  // ----- the column payload -----

  function Encode(codec: Codec, values: seq<Text>): Option<seq<byte>> {
    match codec
    case Prefix => Some(EncodePrefix([], values))
    case Dictionary => EncodeDictionary(values)
    case RunLength => Some(Rle.Encode(EncodeStored(values)))
    case Plain => Some(EncodeStored(values))
  }

  /** The bound on the bytes behind a run-length payload. */
  function RleBound(rawSize: nat, count: nat): nat {
    if rawSize + count * 10 < MAX_DECODED_BYTES then rawSize + count * 10 else MAX_DECODED_BYTES
  }

  /** The strings of a payload that declares `count` of them, after the guard against impossible counts. */
  function Decode(codec: Codec, payload: seq<byte>, count: nat, rawSize: nat): Option<seq<Text>> {
    if !codec.RunLength? && count > |payload| then None
    else
      match codec
      case Prefix => DecodePrefix(payload, count)
      case Dictionary => DecodeDictionary(payload, count)
      case RunLength =>
        if count * 10 >= U64_LIMIT || rawSize + count * 10 >= U64_LIMIT then None
        else
          (match Rle.Decode(payload, RleBound(rawSize, count))
           case None => None
           case Some(bytes) => DecodeStored(bytes, count))
      case Plain => DecodeStored(payload, count)
  }

  lemma {:induction false} PrefixesLength(data: seq<byte>, pos: nat, previous: Text, count: nat)
    requires ReadPrefixes(data, pos, previous, count).Some?
    ensures |ReadPrefixes(data, pos, previous, count).value.0| == count
    decreases count
  {
    hide ReadPrefixed;
    if count > 0 {
      var (value, next) := ReadPrefixed(data, pos, previous).value;
      PrefixesLength(data, next, value, count - 1);
    }
  }

  lemma {:induction false} PayloadCount(codec: Codec, payload: seq<byte>, count: nat, rawSize: nat)
    requires Decode(codec, payload, count, rawSize).Some?
    ensures |Decode(codec, payload, count, rawSize).value| == count
  {
    hide ReadTexts, ReadPrefixes, Varint.Read, Varint.DecodeFrom, Rle.Decode, LookUp;
    if codec.Prefix? {
      PrefixesLength(payload, 0, [], count);
    } else if codec.Dictionary? {
      var (size, next) := Varint.Read(payload, 0).value;
      var (d, cursor) := ReadTexts(payload, next, size).value;
      LookedUpAll(d, Varint.DecodeFrom(payload, cursor).value);
    } else if codec.Plain? {
      TextsLength(payload, 0, count);
    } else {
      TextsLength(Rle.Decode(payload, RleBound(rawSize, count)).value, 0, count);
    }
  }

  /** The decoders' limit on a run-length column: its stored form. */
  predicate WithinLimit(codec: Codec, values: seq<Text>) {
    codec.RunLength? ==> |EncodeStored(values)| <= MAX_DECODED_BYTES
  }

  /**
    Whatever a codec encodes it decodes to the same strings, and no other guard of the decoder is tripped by encoder
    output; a run-length column decodes if and only if its stored form is within the limit on decoded bytes.
  */
  lemma {:induction false} RoundTrip(codec: Codec, values: seq<Text>)
    requires AllSized(values) && Utf8.AllValid(values) && Encode(codec, values).Some?
    requires |Encode(codec, values).value| < U64_LIMIT
    ensures Decode(codec, Encode(codec, values).value, |values|, RawSize(values))
         == if WithinLimit(codec, values) then Some(values) else None
  {
    hide EncodePrefix, EncodeDictionary, EncodeStored, Rle.Encode, Rle.Decode, DecodePrefix, DecodeDictionary;
    hide DecodeStored, AllSized;
    hide Utf8.AllValid, RawSize;
    StoredSize(values);
    match codec
    case Prefix =>
      PrefixSize([], values);
      PrefixRoundTrip(values);
    case Dictionary =>
      DictionarySize(values);
      DictionaryRoundTrip(values);
    case RunLength => RunLengthExactly(values);
    case Plain => DecodeStoredIff(EncodeStored(values), values);
  }

  lemma {:induction false} DictionarySize(values: seq<Text>)
    requires EncodeDictionary(values).Some?
    ensures |EncodeDictionary(values).value| >= |values|
  {
    EncodeAllSize(Ids(values));
  }

  /** The run-length limit is exact: beyond it the decoder rejects what the encoder wrote. */
  lemma {:induction false} RunLengthExactly(values: seq<Text>)
    requires AllSized(values) && Utf8.AllValid(values)
    ensures Decode(RunLength, Encode(RunLength, values).value, |values|, RawSize(values))
         == if |EncodeStored(values)| <= MAX_DECODED_BYTES then Some(values) else None
  {
    hide EncodeStored, Rle.Encode, Rle.Decode, DecodeStored, AllSized, Utf8.AllValid, RawSize;
    StoredSize(values);
    if |values| * 10 < U64_LIMIT && RawSize(values) + |values| * 10 < U64_LIMIT {
      Rle.RoundTrip(EncodeStored(values), RleBound(RawSize(values), |values|));
      if |EncodeStored(values)| <= MAX_DECODED_BYTES {
        DecodeStoredIff(EncodeStored(values), values);
      }
    }
  }
}
