/** Byte run lengths as `[count][byte]` pairs (crates/compact-core/src/primitives/rle.rs). */
module Rle {
  import opened Wrappers
  import opened Bytes

  predicate Run(data: seq<byte>, n: nat) {
    n <= |data| && forall k :: 0 <= k < n ==> data[k] == data[0]
  }

  /** The length of the first run, cut at 255. */
  function RunLength(data: seq<byte>, n: nat): (r: nat)
    requires data != [] && 1 <= n <= 255 && Run(data, n)
    ensures n <= r <= 255 && Run(data, r)
    ensures r == 255 || r == |data| || data[r] != data[0]
    decreases |data| - n
  {
    if n < |data| && data[n] == data[0] && n < 255 then RunLength(data, n + 1) else n
  }

  function Encode(data: seq<byte>): seq<byte> {
    if data == [] then [] else
      var n := RunLength(data, 1);
      [n, data[0]] + Encode(data[n..])
  }

  function Repeat(b: byte, n: nat): (s: seq<byte>)
    ensures |s| == n
  {
    seq(n, _ => b)
  }

  /** The pairs written out, None for an odd length or an empty run. */
  function Expand(data: seq<byte>): Option<seq<byte>> {
    if data == [] then Some([])
    else if |data| == 1 || data[0] == 0 then None
    else
      match Expand(data[2..])
      case None => None
      case Some(rest) => Some(Repeat(data[1], data[0]) + rest)
  }

  /** `decode_rle_bounded`. */
  function Decode(data: seq<byte>, max: nat): Option<seq<byte>> {
    match Expand(data)
    case None => None
    case Some(bytes) => if |bytes| > max then None else Some(bytes)
  }

  lemma {:induction false} ExpandEncode(data: seq<byte>)
    ensures Expand(Encode(data)) == Some(data)
  {
    if data != [] {
      var n := RunLength(data, 1);
      ExpandEncode(data[n..]);
      assert Encode(data)[2..] == Encode(data[n..]);
      assert Repeat(data[0], n) + data[n..] == data;
    }
  }

  /** Encoded bytes decode to themselves exactly when they fit the bound. */
  lemma {:induction false} RoundTrip(data: seq<byte>, max: nat)
    ensures Decode(Encode(data), max) == if |data| <= max then Some(data) else None
  {
    ExpandEncode(data);
  }

  /** Complete pairs, none of them for an empty run. */
  predicate Pairs(data: seq<byte>) {
    |data| % 2 == 0 && forall i :: 0 <= i < |data| && i % 2 == 0 ==> data[i] >= 1
  }

  lemma {:induction false} PairsCons(data: seq<byte>)
    requires |data| >= 2
    ensures Pairs(data) <==> data[0] >= 1 && Pairs(data[2..])
  {
    var rest := data[2..];
    if Pairs(data) {
      forall i | 0 <= i < |rest| && i % 2 == 0 ensures rest[i] >= 1 {
        assert rest[i] == data[i + 2];
      }
    }
    if data[0] >= 1 && Pairs(rest) {
      forall i | 0 <= i < |data| && i % 2 == 0 ensures data[i] >= 1 {
        assert i > 0 ==> data[i] == rest[i - 2];
      }
    }
  }

  /** Pairs can be written out exactly when they are complete and none stands for an empty run. */
  lemma {:induction false} ExpandExists(data: seq<byte>)
    ensures Expand(data).Some? <==> Pairs(data)
    decreases |data|
  {
    if |data| >= 2 {
      PairsCons(data);
      hide Pairs;
      ExpandExists(data[2..]);
    }
  }

  /** Two neighbouring pairs have different bytes, unless the first run is as long as a pair can say. */
  ghost predicate Maximal(pairs: seq<byte>) {
    forall i :: 0 <= i && i + 3 < |pairs| && i % 2 == 0 ==> pairs[i + 1] != pairs[i + 3] || pairs[i] == 255
  }

  lemma {:induction false} MaximalCons(n: byte, b: byte, rest: seq<byte>)
    requires Maximal(rest) && |rest| % 2 == 0
    requires n == 255 || rest == [] || rest[1] != b
    ensures Maximal([n, b] + rest)
  {
    var pairs := [n, b] + rest;
    forall i | 0 <= i && i + 3 < |pairs| && i % 2 == 0 ensures pairs[i + 1] != pairs[i + 3] || pairs[i] == 255 {
      if i > 0 {
        assert pairs[i] == rest[i - 2] && pairs[i + 1] == rest[i - 1] && pairs[i + 3] == rest[i + 1];
      }
    }
  }

  /** Encoding never splits a run that one pair could hold. */
  lemma {:induction false} EncodesMaximalRuns(data: seq<byte>)
    ensures Pairs(Encode(data)) && Maximal(Encode(data))
    ensures data != [] ==> |Encode(data)| >= 2 && Encode(data)[1] == data[0]
    decreases |data|
  {
    if data != [] {
      var n := RunLength(data, 1);
      var rest := Encode(data[n..]);
      EncodesMaximalRuns(data[n..]);
      MaximalCons(n, data[0], rest);
      PairsCons([n, data[0]] + rest);
      assert ([n, data[0]] + rest)[2..] == rest;
    }
  }

  // ----- the loops -----

  lemma {:induction false} RunStep(rest: seq<byte>, n: nat)
    requires rest != [] && 1 <= n <= 255 && Run(rest, n)
    ensures n < |rest| && rest[n] == rest[0] && n < 255 ==> Run(rest, n + 1) && RunLength(rest, n) == RunLength(rest, n + 1)
    ensures !(n < |rest| && rest[n] == rest[0] && n < 255) ==> RunLength(rest, n) == n
  {
  }

  lemma {:induction false} RunStart(rest: seq<byte>)
    requires rest != []
    ensures Run(rest, 1)
  {
  }

  /** One pair written, the rest of the data still to come. */
  lemma {:induction false} EncodeRun(data: seq<byte>, i: nat, n: nat, result: seq<byte>)
    requires i < |data| && 1 <= n <= 255 && i + n <= |data|
    requires Run(data[i..], 1) && RunLength(data[i..], 1) == n
    ensures result + Encode(data[i..]) == (result + [n, data[i]]) + Encode(data[i + n..])
  {
    hide Run, RunLength;
    assert data[i..][n..] == data[i + n..];
    assert result + ([n, data[i]] + Encode(data[i + n..])) == (result + [n, data[i]]) + Encode(data[i + n..]);
  }

  lemma {:induction false} EncodeNothing(result: seq<byte>)
    ensures result + Encode([]) == result && [] + result == result
  {
  }

  method EncodeRle(data: seq<byte>) returns (result: seq<byte>)
    ensures result == Encode(data)
  {
    hide Run, RunLength, Encode;
    result := [];
    var i := 0;
    assert data[0..] == data;
    EncodeNothing(Encode(data));
    while i < |data|
      invariant i <= |data|
      invariant Encode(data) == result + Encode(data[i..])
    {
      var b, count := data[i], 1;
      ghost var rest := data[i..];
      RunStart(rest);
      RunStep(rest, 1);
      while i + count < |data| && data[i + count] == b && count < 255
        invariant 1 <= count <= 255 && i + count <= |data|
        invariant Run(rest, count) && RunLength(rest, 1) == RunLength(rest, count)
        decreases |data| - count
      {
        RunStep(rest, count);
        count := count + 1;
      }
      RunStep(rest, count);
      EncodeRun(data, i, count, result);
      result := result + [count, b];
      i := i + count;
    }
    assert data[i..] == [];
    EncodeNothing(result);
  }

  lemma {:induction false} ExpandSplit(data: seq<byte>, i: nat)
    requires i + 2 <= |data| && i % 2 == 0
    requires Expand(data[..i]).Some?
    ensures data[i] == 0 ==> Expand(data[..i + 2]) == None && Expand(data) == None
    ensures data[i] > 0 ==> Expand(data[..i + 2]) == Some(Expand(data[..i]).value + Repeat(data[i + 1], data[i]))
    ensures Expand(data) == None || |Expand(data).value| >= |Expand(data[..i]).value| + data[i]
    decreases |data|
  {
    if i > 0 {
      assert data[..i][2..] == data[2..][..i - 2] && data[..i + 2][2..] == data[2..][..i];
      ExpandSplit(data[2..], i - 2);
      if data[i] > 0 {
        assert Repeat(data[1], data[0]) + (Expand(data[..i][2..]).value + Repeat(data[i + 1], data[i]))
            == (Repeat(data[1], data[0]) + Expand(data[..i][2..]).value) + Repeat(data[i + 1], data[i]);
      }
    } else {
      assert data[..2][2..] == [];
      assert [] + Repeat(data[1], data[0]) == Repeat(data[1], data[0]) == Repeat(data[1], data[0]) + [];
    }
  }

  lemma {:induction false} ExpandOdd(data: seq<byte>)
    requires |data| % 2 == 1
    ensures Expand(data) == None
  {
    if |data| > 1 {
      ExpandOdd(data[2..]);
    }
  }

  /** `decode_rle_bounded`: one pass that only adds up the counts, one that writes the bytes. */
  method DecodeRleBounded(data: seq<byte>, max: nat) returns (r: Option<seq<byte>>)
    ensures r == Decode(data, max)
  {
    if |data| % 2 != 0 {
      ExpandOdd(data);
      return None;
    }
    hide Repeat;
    var estimated, i := 0, 0;
    assert data[..0] == [];
    while i < |data|
      invariant i <= |data| && i % 2 == 0
      invariant Expand(data[..i]).Some? && estimated == |Expand(data[..i]).value| <= max
    {
      ExpandSplit(data, i);
      if data[i] == 0 {
        return None;
      }
      estimated := estimated + data[i];
      if estimated > max {
        return None;
      }
      i := i + 2;
    }
    assert data[..|data|] == data;
    var result: seq<byte> := [];
    i := 0;
    while i < |data|
      invariant i <= |data| && i % 2 == 0
      invariant Expand(data[..i]) == Some(result)
    {
      ExpandSplit(data, i);
      result := result + Repeat(data[i + 1], data[i]);
      i := i + 2;
    }
    return Some(result);
  }
}
