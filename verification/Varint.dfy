/**
  Canonical base-128 varints (crates/compact-core/src/primitives/varint.rs; unsigned LEB128, section 7.6 of
  the DWARF 5 standard, in its shortest form only).
*/
module Varint {
  import opened Wrappers
  import opened Bytes

  // ----- the code -----

  function Encode(v: nat): (e: seq<byte>)
    ensures |e| >= 1
  {
    if v < 0x80 then [v] else [v % 0x80 + 0x80] + Encode(v / 0x80)
  }

  function EncodeAll(vs: seq<nat>): seq<byte> {
    if vs == [] then [] else Encode(vs[0]) + EncodeAll(vs[1..])
  }

  function EncodedLen(v: nat): (n: nat)
    ensures n == |Encode(v)|
  {
    if v < 0x80 then 1 else 1 + EncodedLen(v / 0x80)
  }

  /** The number whose digits to the base 128, least significant first, are the low seven bits of these bytes. */
  function Digits(s: seq<byte>): nat {
    if s == [] then 0 else s[0] % 0x80 + 0x80 * Digits(s[1..])
  }

  /** A varint has the digits of its number; the high bit says that one more follows, and none of them is superfluous. */
  lemma {:induction false} EncodeMeans(v: nat)
    ensures Digits(Encode(v)) == v
    ensures forall k :: 0 <= k < |Encode(v)| ==> (Encode(v)[k] >= 0x80 <==> k < |Encode(v)| - 1)
    ensures |Encode(v)| > 1 ==> Encode(v)[|Encode(v)| - 1] > 0
    decreases v
  {
    if v >= 0x80 {
      EncodeMeans(v / 0x80);
      var (first, rest) := (v % 0x80 + 0x80, Encode(v / 0x80));
      assert Encode(v) == [first] + rest && Encode(v)[1..] == rest;
      assert first % 0x80 == v % 0x80;
    } else {
      assert Encode(v)[1..] == [];
    }
  }

  /** What is left of 64 bits behind `k` groups of seven. */
  function Limit(k: nat): nat
    requires k <= 9
    decreases 9 - k
  {
    if k == 9 then 2 else 0x80 * Limit(k + 1)
  }

  /** The groups from group `k` on: their value and the position behind the last of them. */
  function Groups(data: seq<byte>, pos: nat, k: nat): Option<(nat, nat)>
    requires k <= 9
    decreases 9 - k
  {
    if pos >= |data| then None
    else
      var part, more := data[pos] % 0x80, data[pos] >= 0x80;
      if k == 9 && (part > 1 || more) then None
      else if !more then Some((part, pos + 1))
      else
        match Groups(data, pos + 1, k + 1)
        case None => None
        case Some((rest, next)) => Some((part + 0x80 * rest, next))
  }

  /** `read_u64`: one canonical varint, or None when it is truncated, too large or overlong. */
  function Read(data: seq<byte>, pos: nat): Option<(nat, nat)> {
    match Groups(data, pos, 0)
    case None => None
    case Some((v, next)) => if next - pos != EncodedLen(v) then None else Some((v, next))
  }

  lemma {:induction false} GroupsProgress(data: seq<byte>, pos: nat, k: nat)
    requires k <= 9 && Groups(data, pos, k).Some?
    ensures pos < Groups(data, pos, k).value.1 <= |data|
    ensures Groups(data, pos, k).value.0 < Limit(k)
    decreases 9 - k
  {
    if data[pos] >= 0x80 {
      GroupsProgress(data, pos + 1, k + 1);
    } else if k < 9 {
      LimitBig(k);
    }
  }

  lemma {:induction false} LimitBig(k: nat)
    requires k < 9
    ensures Limit(k) >= 0x100
    decreases 9 - k
  {
    if k < 8 {
      LimitBig(k + 1);
    }
  }

  lemma {:induction false} FirstByte(data: seq<byte>, pos: nat, v: nat)
    requires At(data, pos, Encode(v))
    ensures pos < |data| && data[pos] == if v < 0x80 then v else v % 0x80 + 0x80
    ensures v < 0x80 ==> |Encode(v)| == 1
    ensures v >= 0x80 ==> At(data, pos + 1, Encode(v / 0x80)) && |Encode(v)| == 1 + |Encode(v / 0x80)|
  {
    assert data[pos] == data[pos..pos + |Encode(v)|][0] == Encode(v)[0];
    if v >= 0x80 {
      AtConcat(data, pos, [v % 0x80 + 0x80], Encode(v / 0x80));
    }
  }

  lemma {:induction false} GroupsFind(data: seq<byte>, pos: nat, k: nat, v: nat)
    requires k <= 9 && v < Limit(k) && At(data, pos, Encode(v))
    ensures Groups(data, pos, k) == Some((v, pos + |Encode(v)|))
    decreases 9 - k
  {
    hide At, Encode;
    FirstByte(data, pos, v);
    if v < 0x80 {
      assert data[pos] == v && |Encode(v)| == 1;
    } else {
      assert k < 9 && data[pos] >= 0x80 && data[pos] % 0x80 == v % 0x80;
      GroupsFind(data, pos + 1, k + 1, v / 0x80);
      var next := pos + |Encode(v)|;
      assert Groups(data, pos + 1, k + 1) == Some((v / 0x80, next));
      assert v == v % 0x80 + 0x80 * (v / 0x80);
    }
  }

  lemma {:induction false} OneGroup(data: seq<byte>, pos: nat, v: nat)
    requires pos < |data|
    ensures v < 0x80 && data[pos] == v ==> At(data, pos, Encode(v))
    ensures v >= 0x80 && data[pos] == v % 0x80 + 0x80 && At(data, pos + 1, Encode(v / 0x80)) ==> At(data, pos, Encode(v))
  {
    assert data[pos..pos + 1] == [data[pos]];
    if v >= 0x80 {
      AtConcat(data, pos, [v % 0x80 + 0x80], Encode(v / 0x80));
    }
  }

  lemma {:induction false} GroupsAreEncoded(data: seq<byte>, pos: nat, k: nat)
    requires k <= 9 && Groups(data, pos, k).Some?
    requires Groups(data, pos, k).value.1 - pos == EncodedLen(Groups(data, pos, k).value.0)
    ensures At(data, pos, Encode(Groups(data, pos, k).value.0))
    decreases 9 - k
  {
    hide At, Encode;
    var (v, next) := Groups(data, pos, k).value;
    GroupsProgress(data, pos, k);
    if data[pos] >= 0x80 {
      var (rest, end) := Groups(data, pos + 1, k + 1).value;
      GroupsProgress(data, pos + 1, k + 1);
      assert v == data[pos] % 0x80 + 0x80 * rest && next == end;
      assert v % 0x80 == data[pos] % 0x80 && v / 0x80 == rest;
      assert EncodedLen(v) == 1 + EncodedLen(rest);
      GroupsAreEncoded(data, pos + 1, k + 1);
    }
    OneGroup(data, pos, v);
  }

  lemma LimitIs64()
    ensures Limit(0) == U64_LIMIT
  {
    assert Limit(8) == 0x100 && Limit(7) == 0x8000 && Limit(6) == 0x40_0000 && Limit(5) == 0x2000_0000;
    assert Limit(4) == 0x10_0000_0000 && Limit(3) == 0x800_0000_0000 && Limit(2) == 0x4_0000_0000_0000;
    assert Limit(1) == 0x200_0000_0000_0000;
  }

  /** Reading accepts exactly the encoder's bytes of a 64-bit value. */
  lemma {:induction false} ReadIff(data: seq<byte>, pos: nat, v: nat, next: nat)
    ensures Read(data, pos) == Some((v, next)) <==> v < U64_LIMIT && At(data, pos, Encode(v)) && next == pos + |Encode(v)|
  {
    LimitIs64();
    if v < U64_LIMIT && At(data, pos, Encode(v)) {
      GroupsFind(data, pos, 0, v);
    }
    if Read(data, pos) == Some((v, next)) {
      GroupsProgress(data, pos, 0);
      GroupsAreEncoded(data, pos, 0);
    }
  }

  lemma {:induction false} ReadProgress(data: seq<byte>, pos: nat)
    requires Read(data, pos).Some?
    ensures pos < Read(data, pos).value.1 <= |data| && Read(data, pos).value.0 < U64_LIMIT
  {
    LimitIs64();
    GroupsProgress(data, pos, 0);
  }

  /** Reading varints one after the other until the input ends. */
  function DecodeFrom(data: seq<byte>, pos: nat): Option<seq<nat>>
    decreases |data| - pos
  {
    if pos >= |data| then Some([])
    else
      match Read(data, pos)
      case None => None
      case Some((v, next)) =>
        ReadProgress(data, pos);
        match DecodeFrom(data, next)
        case None => None
        case Some(rest) => Some([v] + rest)
  }

  lemma {:induction false} NoValues(data: seq<byte>, pos: nat)
    requires pos <= |data|
    ensures DecodeFrom(data, pos) == Some([]) <==> pos == |data|
    ensures At(data, pos, EncodeAll([])) && EncodeAll([]) == [] && AllU64([])
  {
    hide Read;
    if pos < |data| && Read(data, pos).Some? {
      ReadProgress(data, pos);
    }
  }

  lemma {:induction false} EncodeAllFirst(vs: seq<nat>)
    requires vs != []
    ensures EncodeAll(vs) == Encode(vs[0]) + EncodeAll(vs[1..])
  {
    hide Encode;
  }

  lemma {:induction false} ReadFirst(data: seq<byte>, pos: nat, v: nat)
    ensures Read(data, pos).Some? && Read(data, pos).value.0 == v <==> v < U64_LIMIT && At(data, pos, Encode(v))
    ensures Read(data, pos).Some? && Read(data, pos).value.0 == v ==>
              Read(data, pos).value.1 == pos + |Encode(v)| && pos < pos + |Encode(v)| <= |data|
  {
    hide Read, At, Encode;
    ReadIff(data, pos, v, pos + |Encode(v)|);
    if Read(data, pos).Some? {
      ReadProgress(data, pos);
      ReadIff(data, pos, Read(data, pos).value.0, Read(data, pos).value.1);
    }
  }

  lemma {:induction false} DecodeFromIff(data: seq<byte>, pos: nat, vs: seq<nat>)
    requires pos <= |data|
    ensures DecodeFrom(data, pos) == Some(vs) <==> AllU64(vs) && At(data, pos, EncodeAll(vs)) && pos + |EncodeAll(vs)| == |data|
    decreases |vs|
  {
    hide At, Encode, EncodeAll, Read, DecodeFrom, AllU64;
    if vs == [] {
      NoValues(data, pos);
    } else {
      var (v, rest) := (vs[0], EncodeAll(vs[1..]));
      EncodeAllFirst(vs);
      AtConcat(data, pos, Encode(v), rest);
      ReadFirst(data, pos, v);
      DecodeCons(data, pos, vs);
      if Read(data, pos).Some? && Read(data, pos).value.0 == v {
        var next := Read(data, pos).value.1;
        DecodeFromIff(data, next, vs[1..]);
        assert At(data, pos, Encode(v));
        assert AllU64(vs) <==> AllU64(vs[1..]);
        assert |EncodeAll(vs)| == |Encode(v)| + |rest|;
      } else {
        assert !(AllU64(vs) && At(data, pos, EncodeAll(vs)));
      }
    }
  }

  lemma {:induction false} DecodeCons(data: seq<byte>, pos: nat, vs: seq<nat>)
    requires vs != []
    ensures DecodeFrom(data, pos) == Some(vs) <==>
            pos < |data| && Read(data, pos).Some? && Read(data, pos).value.0 == vs[0]
            && DecodeFrom(data, Read(data, pos).value.1) == Some(vs[1..])
    ensures AllU64(vs) <==> vs[0] < U64_LIMIT && AllU64(vs[1..])
  {
    hide Read;
    assert vs == [vs[0]] + vs[1..];
    if vs[0] < U64_LIMIT && AllU64(vs[1..]) {
      forall k | 0 <= k < |vs| ensures vs[k] < U64_LIMIT {
        if k > 0 {
          assert vs[1..][k - 1] == vs[k];
        }
      }
    }
  }

  /** The varint code is a bijection: a byte string decodes to values exactly when it is their encoding. */
  lemma {:induction false} DecodeIff(data: seq<byte>, vs: seq<nat>)
    ensures DecodeFrom(data, 0) == Some(vs) <==> AllU64(vs) && data == EncodeAll(vs)
  {
    DecodeFromIff(data, 0, vs);
    assert |data| == |EncodeAll(vs)| ==> data[0..|EncodeAll(vs)|] == data;
  }

  // ----- the loops -----

  function Pow128(k: nat): (r: nat)
    ensures r > 0
  {
    if k == 0 then 1 else 0x80 * Pow128(k - 1)
  }

  /** `encode_u64`: the bytes of each value, low group first. */
  method EncodeU64(values: seq<u64>) returns (out: seq<byte>)
    ensures out == EncodeAll(values)
  {
    hide EncodeAll, Encode;
    out := [];
    assert values[0..] == values;
    AssociateNothing(EncodeAll(values));
    for i := 0 to |values|
      invariant EncodeAll(values) == out + EncodeAll(values[i..])
    {
      EncodeAllStep(values, i);
      var value: nat := values[i];
      ghost var rest := EncodeAll(values[i + 1..]);
      while value >= 0x80
        invariant EncodeAll(values) == out + (Encode(value) + rest)
        decreases value
      {
        EncodeStep(value);
        Associate(out, [value % 0x80 + 0x80], Encode(value / 0x80), rest);
        out := out + [value % 0x80 + 0x80];
        value := value / 0x80;
      }
      EncodeStep(value);
      Associate(out, [value], [], rest);
      out := out + [value];
    }
    EncodeAllStep(values, |values|);
  }

  lemma EncodeStep(v: nat)
    ensures Encode(v) == if v < 0x80 then [v] + [] else [v % 0x80 + 0x80] + Encode(v / 0x80)
  {
  }

  lemma {:induction false} EncodeAllStep(values: seq<nat>, i: nat)
    requires i <= |values|
    ensures EncodeAll(values[i..]) == if i == |values| then [] else Encode(values[i]) + EncodeAll(values[i + 1..])
  {
    if i < |values| {
      assert values[i..][0] == values[i] && values[i..][1..] == values[i + 1..];
    }
  }

  lemma {:induction false} Associate(a: seq<byte>, b: seq<byte>, c: seq<byte>, d: seq<byte>)
    ensures a + ((b + c) + d) == (a + b) + (c + d)
    ensures [] + d == d && a + [] == a
  {
  }

  lemma {:induction false} AssociateNothing(a: seq<byte>)
    ensures [] + a == a
  {
  }

  /** `before` with the group `part` added at position `k`. */
  function Added(k: nat, before: nat, part: nat): nat {
    before + Pow128(k) * part
  }

  lemma AddedTwice(k: nat, before: nat, part: nat, rest: nat)
    ensures Added(k, before, part + 0x80 * rest) == Added(k + 1, Added(k, before, part), rest)
  {
    assert Pow128(k) * (part + 0x80 * rest) == Pow128(k) * part + (0x80 * Pow128(k)) * rest;
  }

  lemma AddedFirst(part: nat)
    ensures Added(0, 0, part) == part
  {
    assert Pow128(0) == 1;
  }

  /** A varint whose first `k` groups have the value `value`, completed by the groups from `pos` on. */
  ghost function Completed(data: seq<byte>, pos: nat, k: nat, value: nat): Option<(nat, nat)>
    requires k <= 9
  {
    match Groups(data, pos, k)
    case None => None
    case Some((rest, next)) => Some((Added(k, value, rest), next))
  }

  lemma {:induction false} CompletedStep(data: seq<byte>, pos: nat, k: nat, value: nat)
    requires k < 9 && pos < |data| && data[pos] >= 0x80
    ensures Completed(data, pos, k, value) == Completed(data, pos + 1, k + 1, Added(k, value, data[pos] % 0x80))
  {
    hide Added;
    if Groups(data, pos + 1, k + 1).Some? {
      AddedTwice(k, value, data[pos] % 0x80, Groups(data, pos + 1, k + 1).value.0);
    }
  }

  lemma {:induction false} CompletedLast(data: seq<byte>, pos: nat, k: nat, value: nat)
    requires k <= 9 && pos < |data|
    ensures k == 9 && (data[pos] % 0x80 > 1 || data[pos] >= 0x80) ==> Completed(data, pos, k, value) == None
    ensures data[pos] < 0x80 && (k == 9 ==> data[pos] <= 1) ==>
              Completed(data, pos, k, value) == Some((Added(k, value, data[pos]), pos + 1))
  {
    hide Added;
  }

  lemma {:induction false} CompletedEnd(data: seq<byte>, k: nat, value: nat)
    requires k <= 9
    ensures Completed(data, |data|, k, value) == None
  {
  }

  lemma {:induction false} NoGroups(data: seq<byte>, pos: nat)
    requires pos >= |data|
    ensures Groups(data, pos, 0) == None
  {
  }

  lemma {:induction false} CompletedStart(data: seq<byte>, pos: nat)
    ensures Completed(data, pos, 0, 0) == Groups(data, pos, 0)
  {
    if Groups(data, pos, 0).Some? {
      AddedFirst(Groups(data, pos, 0).value.0);
    }
  }

  /**
    `read_u64` with its cursor and its running value. (The groups occupy disjoint bits, so `|=` with a
    shift is an addition.)
  */
  method ReadU64(data: seq<byte>, pos: nat) returns (r: Option<(nat, nat)>)
    ensures r == Read(data, pos)
  {
    hide Groups, EncodedLen, Encode, Added, Completed;
    if pos >= |data| {
      NoGroups(data, pos);
      return None;
    }
    CompletedStart(data, pos);
    var value: nat, shift: nat, bytesRead: nat, cursor := 0, 0, 0, pos;
    while cursor < |data|
      invariant cursor == pos + bytesRead <= |data| && shift == 7 * bytesRead && bytesRead <= 9
      invariant Groups(data, pos, 0) == Completed(data, cursor, bytesRead, value)
    {
      var b := data[cursor];
      var part := b % 0x80;
      CompletedLast(data, cursor, bytesRead, value);
      if shift == 63 && (part > 1 || b >= 0x80) {
        return None;
      }
      ghost var before := value;
      value := Added(bytesRead, value, part);
      if b < 0x80 {
        if bytesRead + 1 != EncodedLen(value) {
          return None;
        }
        return Some((value, cursor + 1));
      }
      CompletedStep(data, cursor, bytesRead, before);
      cursor, bytesRead, shift := cursor + 1, bytesRead + 1, shift + 7;
    }
    CompletedEnd(data, bytesRead, value);
    return None;
  }

  lemma {:induction false} DecodeStep(out: seq<nat>, data: seq<byte>, pos: nat)
    requires pos < |data|
    ensures Read(data, pos) == None ==> Prefixed(out, DecodeFrom(data, pos)) == None
    ensures Read(data, pos).Some? ==>
              Prefixed(out, DecodeFrom(data, pos)) ==
              Prefixed(out + [Read(data, pos).value.0], DecodeFrom(data, Read(data, pos).value.1))
  {
    hide Read;
    if Read(data, pos).Some? {
      var (v, next) := Read(data, pos).value;
      PrefixedMore(out, v, DecodeFrom(data, next));
    }
  }

  lemma {:induction false} NothingLeft(data: seq<byte>)
    ensures DecodeFrom(data, |data|) == Some([])
  {
  }

  /** `decode_u64`: one pass over the bytes, with the value under construction carried along. */
  method DecodeU64(data: seq<byte>) returns (values: Option<seq<nat>>)
    ensures values == DecodeFrom(data, 0)
  {
    hide Groups, EncodedLen, Encode, Added, Completed, DecodeFrom, Prefixed;
    PrefixedNothing(DecodeFrom(data, 0));
    CompletedStart(data, 0);
    var out: seq<nat> := [];
    var value: nat, shift: nat, bytesRead: nat := 0, 0, 0;
    for i := 0 to |data|
      invariant bytesRead <= i && shift == 7 * bytesRead && bytesRead <= 9
      invariant DecodeFrom(data, 0) == Prefixed(out, DecodeFrom(data, i - bytesRead))
      invariant Groups(data, i - bytesRead, 0) == Completed(data, i, bytesRead, value)
    {
      var b := data[i];
      var part := b % 0x80;
      ghost var before, start := value, i - bytesRead;
      CompletedLast(data, i, bytesRead, before);
      DecodeStep(out, data, start);
      if shift == 63 && (part > 1 || b >= 0x80) {
        return None;
      }
      value := Added(bytesRead, value, part);
      if b < 0x80 {
        if bytesRead + 1 != EncodedLen(value) {
          return None;
        }
        out := out + [value];
        value, shift, bytesRead := 0, 0, 0;
        CompletedStart(data, i + 1);
      } else {
        CompletedStep(data, i, bytesRead, before);
        bytesRead, shift := bytesRead + 1, shift + 7;
      }
    }
    if shift != 0 {
      CompletedEnd(data, bytesRead, value);
      DecodeStep(out, data, |data| - bytesRead);
      return None;
    }
    NothingLeft(data);
    PrefixedEnd(out);
    return Some(out);
  }
}
