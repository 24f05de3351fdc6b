/** Bytes, little-endian integers and fixed positions inside a buffer. */
module Bytes {
  type byte = x: int | 0 <= x < 256
  type u32 = x: int | 0 <= x < 0x1_0000_0000
  type u64 = x: int | 0 <= x < 0x1_0000_0000_0000_0000

  const U32_LIMIT: nat := 0x1_0000_0000
  const U64_LIMIT: nat := 0x1_0000_0000_0000_0000

  ghost predicate AllU64(values: seq<nat>) {
    forall k :: 0 <= k < |values| ==> values[k] < U64_LIMIT
  }

  /** A length cast to 64 bits; no buffer in memory is long enough for the cast to lose anything. */
  function AsU64(x: nat): (r: u64)
    ensures x < U64_LIMIT ==> r == x
  {
    x % U64_LIMIT
  }

  /** CRC32 is any function of the bytes: no property below depends on which. */
  type Checksum = seq<byte> -> u32

  function Pow256(n: nat): (r: nat)
    ensures r > 0
  {
    if n == 0 then 1 else 256 * Pow256(n - 1)
  }

  lemma Pow256Values()
    ensures Pow256(2) == 0x1_0000 && Pow256(4) == U32_LIMIT && Pow256(8) == U64_LIMIT
  {
    assert Pow256(1) == 256 && Pow256(3) == 0x100_0000;
    assert Pow256(4) == 0x1_0000_0000 && Pow256(5) == 0x100_0000_0000 && Pow256(6) == 0x1_0000_0000_0000;
  }

  /** The `n` low bytes of `x`, least significant first. */
  function Le(n: nat, x: nat): (s: seq<byte>)
    ensures |s| == n
    decreases n, x
  {
    if n == 0 then [] else [x % 256] + Le(n - 1, x / 256)
  }

  function FromLe(s: seq<byte>): nat {
    if s == [] then 0 else s[0] + 256 * FromLe(s[1..])
  }

  lemma {:induction false} FromLeOfLe(n: nat, x: nat)
    requires x < Pow256(n)
    ensures FromLe(Le(n, x)) == x
    decreases n
  {
    if n > 0 {
      assert Le(n, x)[1..] == Le(n - 1, x / 256);
      FromLeOfLe(n - 1, x / 256);
    }
  }

  lemma {:induction false} LeOfFromLe(s: seq<byte>)
    ensures FromLe(s) < Pow256(|s|)
    ensures Le(|s|, FromLe(s)) == s
    decreases |s|
  {
    if s != [] {
      LeOfFromLe(s[1..]);
      var (low, rest) := (s[0], FromLe(s[1..]));
      assert FromLe(s) == low + 256 * rest;
      assert (low + 256 * rest) % 256 == low && (low + 256 * rest) / 256 == rest;
      assert Le(|s|, FromLe(s)) == [low] + Le(|s| - 1, rest);
      assert [low] + s[1..] == s;
    }
  }

  function Le16(x: nat): seq<byte> { Le(2, x) }
  function Le32(x: nat): seq<byte> { Le(4, x) }
  function Le64(x: nat): seq<byte> { Le(8, x) }

  /** 64-bit words one after the other. */
  function Words(values: seq<nat>): (p: seq<byte>)
    ensures |p| == 8 * |values|
  {
    if values == [] then [] else Le64(values[0]) + Words(values[1..])
  }

  function Concat(parts: seq<seq<byte>>): seq<byte> {
    if parts == [] then [] else parts[0] + Concat(parts[1..])
  }

  lemma {:induction false} SameBehind(front: seq<byte>, a: seq<byte>, b: seq<byte>)
    ensures front + a == front + b <==> a == b
  {
    assert (front + a)[|front|..] == a && (front + b)[|front|..] == b;
  }

  lemma ConcatNothing()
    ensures Concat([]) == []
  {
  }

  lemma {:induction false} ConcatAppend(a: seq<seq<byte>>, b: seq<seq<byte>>)
    ensures Concat(a + b) == Concat(a) + Concat(b)
    decreases |a|
  {
    if a == [] {
      assert a + b == b;
    } else {
      assert (a + b)[1..] == a[1..] + b;
      ConcatAppend(a[1..], b);
    }
  }

  lemma {:induction false} ConcatPush(a: seq<seq<byte>>, part: seq<byte>)
    ensures Concat(a + [part]) == Concat(a) + part
  {
    ConcatAppend(a, [part]);
    assert Concat([part]) == part + [];
  }

  // ----- parts of a buffer -----

  /** `part` stands in `data` at position `pos`. */
  predicate At(data: seq<byte>, pos: nat, part: seq<byte>) {
    pos + |part| <= |data| && data[pos..pos + |part|] == part
  }

  lemma {:induction false} AtConcat(data: seq<byte>, pos: nat, a: seq<byte>, b: seq<byte>)
    ensures At(data, pos, a + b) <==> At(data, pos, a) && At(data, pos + |a|, b)
  {
    var m := pos + |a|;
    if At(data, pos, a + b) {
      assert a == (a + b)[..|a|] == data[pos..m + |b|][..|a|] == data[pos..m];
      assert b == (a + b)[|a|..] == data[pos..m + |b|][|a|..] == data[m..m + |b|];
    }
    if At(data, pos, a) && At(data, m, b) {
      assert data[pos..m + |b|] == data[pos..m] + data[m..m + |b|];
    }
  }

  /** A field of `n` bytes at `pos` read as a number, when it is inside the buffer. */
  function Field(data: seq<byte>, pos: nat, n: nat): nat {
    if pos + n <= |data| then FromLe(data[pos..pos + n]) else 0
  }

  lemma {:induction false} AtField(data: seq<byte>, pos: nat, n: nat, x: nat)
    requires x < Pow256(n)
    ensures At(data, pos, Le(n, x)) <==> pos + n <= |data| && Field(data, pos, n) == x
  {
    if pos + n <= |data| {
      LeOfFromLe(data[pos..pos + n]);
      FromLeOfLe(n, x);
    }
  }

  lemma {:induction false} FieldBound(data: seq<byte>, pos: nat, n: nat)
    ensures Field(data, pos, n) < Pow256(n)
  {
    if pos + n <= |data| {
      LeOfFromLe(data[pos..pos + n]);
    }
  }

  /** Part `k` of a concatenation stands behind the parts before it. */
  lemma {:induction false} ConcatAt(data: seq<byte>, pos: nat, parts: seq<seq<byte>>, k: nat)
    requires At(data, pos, Concat(parts)) && k < |parts|
    ensures At(data, pos + |Concat(parts[..k])|, parts[k])
    ensures |Concat(parts[..k + 1])| == |Concat(parts[..k])| + |parts[k]| <= |Concat(parts)|
    decreases k
  {
    hide At;
    AtConcat(data, pos, parts[0], Concat(parts[1..]));
    if k > 0 {
      ConcatAt(data, pos + |parts[0]|, parts[1..], k - 1);
      assert parts[..k][1..] == parts[1..][..k - 1] && parts[..k + 1][1..] == parts[1..][..k];
    } else {
      assert parts[..0] == [] && parts[..1][1..] == [];
    }
  }

  /** Words at `pos` are the fields there. */
  lemma {:induction false} AtWords(data: seq<byte>, pos: nat, values: seq<nat>)
    requires AllU64(values)
    ensures At(data, pos, Words(values)) <==>
            pos + 8 * |values| <= |data| && forall k {:trigger values[k]} :: 0 <= k < |values| ==> Field(data, pos + 8 * k, 8) == values[k]
    decreases |values|
  {
    hide At, Field, Le;
    if values == [] {
      AtNothing(data, pos);
    } else {
      var rest := values[1..];
      Pow256Values();
      AtConcat(data, pos, Le64(values[0]), Words(rest));
      AtField(data, pos, 8, values[0]);
      AtWords(data, pos + 8, rest);
      if pos + 8 * |values| <= |data| && forall k {:trigger values[k]} :: 0 <= k < |values| ==> Field(data, pos + 8 * k, 8) == values[k] {
        forall k | 0 <= k < |rest| ensures Field(data, pos + 8 + 8 * k, 8) == rest[k] {
          assert rest[k] == values[k + 1] && pos + 8 + 8 * k == pos + 8 * (k + 1);
        }
      }
      if pos + 8 * |values| <= |data| && Field(data, pos, 8) == values[0]
         && forall k {:trigger rest[k]} :: 0 <= k < |rest| ==> Field(data, pos + 8 + 8 * k, 8) == rest[k] {
        forall k | 0 <= k < |values| ensures Field(data, pos + 8 * k, 8) == values[k] {
          if k > 0 {
            assert values[k] == rest[k - 1] && pos + 8 + 8 * (k - 1) == pos + 8 * k;
          }
        }
      }
    }
  }

  lemma {:induction false} AtWhole(data: seq<byte>)
    ensures At(data, 0, data)
  {
    assert data[0..|data|] == data;
  }

  lemma {:induction false} AtInside(data: seq<byte>, pos: nat, part: seq<byte>)
    requires At(data, pos, part)
    ensures pos + |part| <= |data| && data[pos..pos + |part|] == part
  {
  }

  lemma {:induction false} AtSlice(data: seq<byte>, pos: nat, part: seq<byte>)
    ensures At(data, pos, part) <==> pos + |part| <= |data| && data[pos..pos + |part|] == part
  {
  }

  lemma {:induction false} AtNothing(data: seq<byte>, pos: nat)
    ensures At(data, pos, []) <==> pos <= |data|
  {
  }

  lemma {:induction false} AtPrefix(data: seq<byte>, more: seq<byte>, pos: nat, part: seq<byte>)
    requires pos + |part| <= |data|
    ensures At(data + more, pos, part) <==> At(data, pos, part)
  {
    assert (data + more)[pos..pos + |part|] == data[pos..pos + |part|];
  }

  /** A cut behind a part does not touch it. */
  lemma {:induction false} AtCut(data: seq<byte>, k: nat, pos: nat, part: seq<byte>)
    requires pos + |part| <= k <= |data|
    ensures At(data[..k], pos, part) <==> At(data, pos, part)
  {
    assert data[..k][pos..pos + |part|] == data[pos..pos + |part|];
  }

  lemma {:induction false} AtOwn(a: seq<byte>, b: seq<byte>, c: seq<byte>)
    ensures At(a + (b + c), |a|, b)
    ensures At(a + (b + c), |a| + |b|, c)
  {
    assert (a + (b + c))[|a|..] == b + c;
  }

  /** A buffer that is covered by two adjacent parts is their concatenation. */
  lemma {:induction false} AtCovers(data: seq<byte>, a: seq<byte>, b: seq<byte>)
    ensures data == a + b <==> At(data, 0, a) && At(data, |a|, b) && |data| == |a| + |b|
  {
    AtConcat(data, 0, a, b);
    assert |data| == |a + b| ==> data[0..|a + b|] == data;
  }

  function Magic(a: byte, b: byte, c: byte, d: byte): (m: seq<byte>)
    ensures |m| == 4
  {
    [a, b, c, d]
  }
}
