/** Bits packed into bytes, least significant bit first, with the last byte padded by zero bits. */
module Bits {
  import opened Wrappers
  import opened Bytes

  function Pow2(n: nat): (r: nat)
    ensures r > 0
  {
    if n == 0 then 1 else 2 * Pow2(n - 1)
  }

  lemma Pow2Values()
    ensures Pow2(8) == 256 && Pow2(64) == U64_LIMIT
  {
    assert Pow2(4) == 16 && Pow2(8) == 256 && Pow2(12) == 4096 && Pow2(16) == 65536;
    assert Pow2(20) == 0x10_0000 && Pow2(24) == 0x100_0000 && Pow2(28) == 0x1000_0000 && Pow2(32) == U32_LIMIT;
    assert Pow2(36) == 0x10_0000_0000 && Pow2(40) == 0x100_0000_0000 && Pow2(44) == 0x1000_0000_0000;
    assert Pow2(48) == 0x1_0000_0000_0000 && Pow2(52) == 0x10_0000_0000_0000 && Pow2(56) == 0x100_0000_0000_0000;
    assert Pow2(60) == 0x1000_0000_0000_0000;
  }

  function Bit(b: bool): nat { if b then 1 else 0 }

  function ValueOf(bits: seq<bool>): nat {
    if bits == [] then 0 else Bit(bits[0]) + 2 * ValueOf(bits[1..])
  }

  /** The `width` low bits of `value`. */
  function BitsOf(value: nat, width: nat): (bits: seq<bool>)
    ensures |bits| == width
    decreases width
  {
    if width == 0 then [] else [value % 2 == 1] + BitsOf(value / 2, width - 1)
  }

  lemma {:induction false} ValueBound(bits: seq<bool>)
    ensures ValueOf(bits) < Pow2(|bits|)
  {
    if bits != [] {
      ValueBound(bits[1..]);
    }
  }

  lemma {:induction false} ValueOfBitsOf(value: nat, width: nat)
    requires value < Pow2(width)
    ensures ValueOf(BitsOf(value, width)) == value
    decreases width
  {
    if width > 0 {
      ValueOfBitsOf(value / 2, width - 1);
      assert BitsOf(value, width)[1..] == BitsOf(value / 2, width - 1);
    }
  }

  lemma {:induction false} BitsOfValueOf(bits: seq<bool>)
    ensures BitsOf(ValueOf(bits), |bits|) == bits
  {
    if bits != [] {
      BitsOfValueOf(bits[1..]);
    }
  }

  lemma {:induction false} BitsOfPrefix(value: nat, width: nat, n: nat)
    requires n <= width
    ensures BitsOf(value, width)[..n] == BitsOf(value, n)
    decreases width
  {
    if n > 0 {
      BitsOfPrefix(value / 2, width - 1, n - 1);
      assert BitsOf(value, width)[..n] == [value % 2 == 1] + BitsOf(value / 2, width - 1)[..n - 1];
    }
  }

  /** Setting bit |bits| of a number adds its weight. */
  lemma {:induction false} ValueSnoc(bits: seq<bool>, b: bool)
    ensures ValueOf(bits + [b]) == ValueOf(bits) + Bit(b) * Pow2(|bits|)
  {
    if bits != [] {
      ValueSnoc(bits[1..], b);
      assert (bits + [b])[1..] == bits[1..] + [b];
    } else {
      assert [b][1..] == [];
      assert Bit(b) * Pow2(0) == Bit(b);
    }
  }

  /** `value >> k`. */
  function Shr(value: nat, k: nat): nat {
    if k == 0 then value else Shr(value / 2, k - 1)
  }

  lemma {:induction false} BitAt(value: nat, width: nat, k: nat)
    requires k < width
    ensures BitsOf(value, width)[k] == (Shr(value, k) % 2 == 1)
    decreases k
  {
    if k > 0 {
      BitAt(value / 2, width - 1, k - 1);
    }
  }

  /** Values below 2^n have no bit from bit `n` on. */
  lemma {:induction false} ShrZero(value: nat, n: nat)
    ensures Shr(value, n) == 0 <==> value < Pow2(n)
    decreases n
  {
    if n > 0 {
      ShrZero(value / 2, n - 1);
    }
  }

  // ----- bytes -----

  function ByteCount(n: nat): nat { (n + 7) / 8 }

  function Pack(bits: seq<bool>): (data: seq<byte>)
    ensures |data| == ByteCount(|bits|)
  {
    if bits == [] then []
    else if |bits| <= 8 then PackByte(bits)
    else PackByte(bits[..8]) + Pack(bits[8..])
  }

  function PackByte(bits: seq<bool>): (data: seq<byte>)
    requires |bits| <= 8
    ensures data == [ValueOf(bits)]
  {
    ByteFits(bits);
    [ValueOf(bits)]
  }

  lemma {:induction false} ByteFits(bits: seq<bool>)
    requires |bits| <= 8
    ensures ValueOf(bits) < 256
  {
    ValueBound(bits);
    assert Pow2(8) == 256 && Pow2(7) == 128 && Pow2(6) == 64 && Pow2(5) == 32 && Pow2(4) == 16;
  }

  function AllBits(data: seq<byte>): (bits: seq<bool>)
    ensures |bits| == 8 * |data|
  {
    if data == [] then [] else BitsOf(data[0], 8) + AllBits(data[1..])
  }

  /** The bits behind the first `n` of the last byte are zero. */
  predicate ZeroPadded(data: seq<byte>, n: nat) {
    data != [] && n % 8 != 0 ==> Shr(data[|data| - 1], n % 8) == 0
  }

  function Unpack(data: seq<byte>, n: nat): Option<seq<bool>> {
    if |data| != ByteCount(n) then None
    else if !ZeroPadded(data, n) then None
    else Some(AllBits(data)[..n])
  }

  lemma {:induction false} AllBitsCons(b: byte, rest: seq<byte>)
    ensures AllBits([b] + rest) == BitsOf(b, 8) + AllBits(rest)
  {
    assert ([b] + rest)[1..] == rest;
  }

  lemma {:induction false} UnpackPack(bits: seq<bool>)
    ensures ZeroPadded(Pack(bits), |bits|)
    ensures AllBits(Pack(bits))[..|bits|] == bits
  {
    hide AllBits, BitsOf, ValueOf;
    if |bits| > 8 {
      var rest := bits[8..];
      UnpackPack(rest);
      ByteFits(bits[..8]);
      BitsOfValueOf(bits[..8]);
      assert Pack(bits) == PackByte(bits[..8]) + Pack(rest);
      AllBitsCons(ValueOf(bits[..8]), Pack(rest));
      assert AllBits(Pack(bits))[..|bits|] == bits[..8] + AllBits(Pack(rest))[..|rest|];
      PaddingBehind(PackByte(bits[..8]), Pack(rest), |rest|);
    } else if bits != [] {
      UnpackPackLast(bits);
    }
  }

  lemma {:induction false} PaddingBehind(first: seq<byte>, rest: seq<byte>, n: nat)
    requires |first| == 1 && |rest| == ByteCount(n) && n > 0
    ensures ZeroPadded(first + rest, 8 + n) == ZeroPadded(rest, n)
  {
    hide Shr;
    assert (first + rest)[|rest|] == rest[|rest| - 1];
    assert (8 + n) % 8 == n % 8;
  }

  lemma {:induction false} PackOne(bits: seq<bool>)
    requires 0 < |bits| <= 8
    ensures ValueOf(bits) < 256 && Pack(bits) == [ValueOf(bits)]
  {
    hide ValueOf;
    ByteFits(bits);
  }

  lemma OneByte(b: byte)
    ensures AllBits([b]) == BitsOf(b, 8)
  {
    hide BitsOf;
    assert [b] + [] == [b];
    AllBitsCons(b, []);
    assert BitsOf(b, 8) + AllBits([]) == BitsOf(b, 8);
  }

  lemma {:induction false} UnpackPackLast(bits: seq<bool>)
    requires 0 < |bits| <= 8
    ensures ZeroPadded(Pack(bits), |bits|)
    ensures AllBits(Pack(bits))[..|bits|] == bits
  {
    hide AllBits, BitsOf, ValueOf, Shr, Pow2, Pack;
    PackOne(bits);
    var value: byte := ValueOf(bits);
    OneByte(value);
    BitsOfValueOf(bits);
    BitsOfPrefix(value, 8, |bits|);
    ValueBound(bits);
    ShrZero(value, |bits|);
  }

  lemma {:induction false} PackUnpack(data: seq<byte>, n: nat)
    requires |data| == ByteCount(n) && ZeroPadded(data, n)
    ensures Pack(AllBits(data)[..n]) == data
    decreases |data|
  {
    hide AllBits, BitsOf, ValueOf, Shr, Pow2;
    if n == 0 {
      assert Pack([]) == [];
    } else {
      Pow2Values();
      assert data == [data[0]] + data[1..];
      AllBitsCons(data[0], data[1..]);
      var bits := AllBits(data)[..n];
      if n > 8 {
        PaddingBehind([data[0]], data[1..], n - 8);
        PackUnpack(data[1..], n - 8);
        ValueOfBitsOf(data[0], 8);
        assert bits[..8] == BitsOf(data[0], 8);
        assert bits[8..] == AllBits(data[1..])[..n - 8];
      } else {
        BitsOfPrefix(data[0], 8, n);
        assert bits == BitsOf(data[0], n);
        ShrZero(data[0], n);
        ValueOfBitsOf(data[0], n);
        assert Pack(bits) == PackByte(bits);
      }
    }
  }

  /** Packing is a bijection: exactly one byte string of the right length carries each bit string. */
  lemma {:induction false} UnpackIff(data: seq<byte>, n: nat, bits: seq<bool>)
    ensures Unpack(data, n) == Some(bits) <==> |bits| == n && data == Pack(bits)
  {
    UnpackPack(bits);
    if |data| == ByteCount(n) && ZeroPadded(data, n) {
      PackUnpack(data, n);
    }
  }

  /** Bits in front of a whole number of bytes do not disturb the ones behind. */
  lemma {:induction false} PackSnoc(front: seq<bool>, last: seq<bool>)
    requires |front| % 8 == 0 && 0 < |last| <= 8
    ensures Pack(front + last) == Pack(front) + PackByte(last)
  {
    if front == [] {
      assert front + last == last;
    } else {
      PackSnoc(front[8..], last);
      assert (front + last)[..8] == front[..8];
      assert (front + last)[8..] == front[8..] + last;
      if front[8..] == [] {
        assert Pack(front) == PackByte(front[..8]) by { assert front[..8] == front; }
      }
    }
  }

  lemma {:induction false} AllBitsAt(data: seq<byte>, k: nat)
    requires k < 8 * |data|
    ensures AllBits(data)[k] == (Shr(data[k / 8], k % 8) % 2 == 1)
  {
    hide AllBits, BitsOf, Shr;
    assert data == [data[0]] + data[1..];
    AllBitsCons(data[0], data[1..]);
    if k < 8 {
      BitAt(data[0], 8, k);
    } else {
      AllBitsAt(data[1..], k - 8);
      assert (k - 8) / 8 == k / 8 - 1 && (k - 8) % 8 == k % 8;
    }
  }

  /** Bit `k` of a packed string is bit `k` of its bytes. */
  lemma {:induction false} UnpackedAt(data: seq<byte>, n: nat, k: nat)
    requires |data| == ByteCount(n) && k < n
    ensures k / 8 < |data|
    ensures AllBits(data)[..n][k] == (Shr(data[k / 8], k % 8) % 2 == 1)
  {
    AllBitsAt(data, k);
  }
}
