/** One bit per value (crates/compact-core/src/primitives/bitmap.rs): validity bitmaps and boolean columns. */
module Bitmap {
  import opened Wrappers
  import opened Bytes
  import opened Bits

  /** `decode`: bit `i` is bit `i % 8` of byte `i / 8`. */
  function Decode(data: seq<byte>, count: nat): Option<seq<bool>> {
    if |data| != ByteCount(count) then None
    else if !ZeroPadded(data, count) then None
    else Some(seq(count, i requires 0 <= i < count => Shr(data[i / 8], i % 8) % 2 == 1))
  }

  /** Decoding accepts exactly the bytes the encoder writes. */
  lemma {:induction false} DecodeIff(data: seq<byte>, count: nat, bits: seq<bool>)
    ensures Decode(data, count) == Some(bits) <==> |bits| == count && data == Pack(bits)
  {
    hide Shr, AllBits, Pack;
    UnpackIff(data, count, bits);
    if |data| == ByteCount(count) && ZeroPadded(data, count) {
      forall k: nat | k < count ensures Decode(data, count).value[k] == Unpack(data, count).value[k] {
        UnpackedAt(data, count, k);
      }
      assert Decode(data, count).value == Unpack(data, count).value;
    }
  }

  // ----- the encoder -----

  function Clear(n: nat): (bits: seq<bool>)
    ensures |bits| == n
  {
    seq(n, _ => false)
  }

  lemma {:induction false} ValueOfClear(n: nat)
    ensures ValueOf(Clear(n)) == 0
  {
    if n > 0 {
      assert Clear(n)[1..] == Clear(n - 1);
      ValueOfClear(n - 1);
    }
  }

  lemma {:induction false} PackClear(n: nat)
    ensures Pack(Clear(n)) == seq(ByteCount(n), _ => 0)
  {
    if n > 8 {
      PackClear(n - 8);
      ValueOfClear(8);
      assert Clear(n)[..8] == Clear(8) && Clear(n)[8..] == Clear(n - 8);
    } else if n > 0 {
      ValueOfClear(n);
    }
  }

  lemma {:induction false} ValueSet(bits: seq<bool>, k: nat)
    requires k < |bits| && !bits[k]
    ensures ValueOf(bits[k := true]) == ValueOf(bits) + Pow2(k)
  {
    if k > 0 {
      ValueSet(bits[1..], k - 1);
      assert bits[k := true][1..] == bits[1..][k - 1 := true];
    }
  }

  /** Setting a clear bit changes one byte, by the weight of the bit. */
  lemma {:induction false} PackSet(bits: seq<bool>, k: nat)
    requires k < |bits| && !bits[k]
    ensures Pack(bits)[k / 8] + Pow2(k % 8) < 256
    ensures Pack(bits[k := true]) == Pack(bits)[k / 8 := Pack(bits)[k / 8] + Pow2(k % 8)]
  {
    hide ValueOf, Pow2;
    var changed := bits[k := true];
    if |bits| <= 8 {
      ValueSet(bits, k);
      ByteFits(changed);
    } else if k < 8 {
      ValueSet(bits[..8], k);
      assert changed[..8] == bits[..8][k := true] && changed[8..] == bits[8..];
      ByteFits(changed[..8]);
    } else {
      PackSet(bits[8..], k - 8);
      assert (k - 8) / 8 == k / 8 - 1 && (k - 8) % 8 == k % 8;
      assert changed[..8] == bits[..8] && changed[8..] == bits[8..][k - 8 := true];
    }
  }

  /** `encode`: set the bits one by one in a zeroed buffer. (The bit is still clear, so `|=` is an addition.) */
  method Encode(bits: seq<bool>) returns (out: array<byte>)
    ensures fresh(out) && out[..] == Pack(bits)
  {
    hide Pack, Pow2;
    out := new byte[ByteCount(|bits|)](_ => 0);
    PackClear(|bits|);
    assert bits[..0] + Clear(|bits|) == Clear(|bits|);
    assert out[..] == Pack(bits[..0] + Clear(|bits|));
    for i := 0 to |bits|
      invariant fresh(out)
      invariant out[..] == Pack(bits[..i] + Clear(|bits| - i))
    {
      ghost var now := bits[..i] + Clear(|bits| - i);
      ghost var next := bits[..i + 1] + Clear(|bits| - (i + 1));
      if bits[i] {
        PackSet(now, i);
        assert next == now[i := true];
        assert out[i / 8] == out[..][i / 8];
        out[i / 8] := out[i / 8] + Pow2(i % 8);
      } else {
        assert next == now;
      }
    }
    assert bits[..|bits|] + Clear(0) == bits;
  }
}
