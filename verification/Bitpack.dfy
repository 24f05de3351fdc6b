/** Numbers packed at a fixed number of bits each (crates/compact-core/src/primitives/bitpack.rs). */
module Bitpack {
  import opened Wrappers
  import opened Bytes
  import opened Limits
  import opened Bits

  predicate Fits(values: seq<nat>, width: nat) {
    forall k :: 0 <= k < |values| ==> values[k] < Pow2(width)
  }

  function FlatBits(values: seq<nat>, width: nat): (bits: seq<bool>)
    ensures |bits| == |values| * width
  {
    if values == [] then [] else
      assert |values| * width == width + |values[1..]| * width;
      BitsOf(values[0], width) + FlatBits(values[1..], width)
  }

  /** What `encode_u64` writes: every bit of every value, padded to whole bytes; None for values that do not fit. */
  function Encode(values: seq<nat>, width: nat): Option<seq<byte>> {
    if width > 64 || !Fits(values, width) || |values| * width >= U64_LIMIT then None
    else Some(Pack(FlatBits(values, width)))
  }

  function Chunk(bits: seq<bool>, width: nat, count: nat): (values: seq<nat>)
    requires |bits| == count * width
    ensures |values| == count
    decreases count
  {
    if count == 0 then [] else
      ChunkRoom(width, count);
      [ValueOf(bits[..width])] + Chunk(bits[width..], width, count - 1)
  }

  lemma ChunkRoom(width: nat, count: nat)
    requires count > 0
    ensures width <= count * width && count * width - width == (count - 1) * width
  {
    assert count * width == width + (count - 1) * width;
  }

  /** What `decode_u64` reads. */
  function Decode(data: seq<byte>, width: nat, count: nat): Option<seq<nat>> {
    if width > 64 || count > MAX_DECODED_VALUES || count * width >= U64_LIMIT then None
    else if |data| != ByteCount(count * width) then None
    else if !ZeroPadded(data, count * width) then None
    else Some(Chunk(AllBits(data)[..count * width], width, count))
  }

  lemma {:induction false} ChunkFlat(values: seq<nat>, width: nat)
    requires Fits(values, width)
    ensures Chunk(FlatBits(values, width), width, |values|) == values
  {
    hide BitsOf, ValueOf, Pow2;
    if values != [] {
      FitsRest(values, width);
      ChunkFlat(values[1..], width);
      ValueOfBitsOf(values[0], width);
      ChunkRoom(width, |values|);
      var bits := FlatBits(values, width);
      assert bits[..width] == BitsOf(values[0], width) && bits[width..] == FlatBits(values[1..], width);
    }
  }

  lemma {:induction false} FitsRest(values: seq<nat>, width: nat)
    requires Fits(values, width) && values != []
    ensures values[0] < Pow2(width) && Fits(values[1..], width)
  {
    hide Pow2;
    forall k | 0 <= k < |values| - 1 ensures values[1..][k] < Pow2(width) {
      assert values[1..][k] == values[k + 1];
    }
  }

  lemma {:induction false} FlatChunk(bits: seq<bool>, width: nat, count: nat)
    requires |bits| == count * width
    ensures FlatBits(Chunk(bits, width, count), width) == bits
    ensures Fits(Chunk(bits, width, count), width)
    decreases count
  {
    hide BitsOf, ValueOf, Pow2;
    if count > 0 {
      ChunkRoom(width, count);
      var rest := Chunk(bits[width..], width, count - 1);
      FlatChunk(bits[width..], width, count - 1);
      BitsOfValueOf(bits[..width]);
      ValueBound(bits[..width]);
      var values := Chunk(bits, width, count);
      assert values[1..] == rest;
      forall k | 0 <= k < |values| ensures values[k] < Pow2(width) {
        assert k > 0 ==> values[k] == rest[k - 1];
      }
    }
  }

  /** Bit packing is a bijection between the values of a width and the byte strings of the right length. */
  lemma {:induction false} DecodeIff(data: seq<byte>, width: nat, count: nat, values: seq<nat>)
    ensures Decode(data, width, count) == Some(values) <==>
            |values| == count <= MAX_DECODED_VALUES && Encode(values, width) == Some(data)
  {
    hide Chunk, FlatBits, Pack, Fits, AllBits, ZeroPadded;
    if Decode(data, width, count) == Some(values) {
      var bits := AllBits(data)[..count * width];
      FlatChunk(bits, width, count);
      UnpackIff(data, count * width, bits);
    }
    if |values| == count <= MAX_DECODED_VALUES && Encode(values, width) == Some(data) {
      ChunkFlat(values, width);
      UnpackIff(data, count * width, FlatBits(values, width));
    }
  }

  // ----- the loops -----

  lemma {:induction false} FlatBitsSnoc(values: seq<nat>, i: nat, width: nat)
    requires i < |values|
    ensures FlatBits(values[..i + 1], width) == FlatBits(values[..i], width) + BitsOf(values[i], width)
    decreases i
  {
    hide BitsOf;
    var front := values[..i + 1];
    if i == 0 {
      assert front[1..] == [] && values[..0] == [];
      assert FlatBits(front, width) == BitsOf(values[0], width) + [];
    } else {
      assert front[1..] == values[1..][..i] && values[..i][1..] == values[1..][..i - 1];
      FlatBitsSnoc(values[1..], i - 1, width);
    }
  }

  /** The bytes written so far and the byte under construction hold exactly `done`. */
  ghost predicate Holds(out: seq<byte>, current: nat, filled: nat, done: seq<bool>) {
    && |done| == 8 * |out| + filled && filled < 8
    && out == Pack(done[..8 * |out|])
    && current == ValueOf(done[8 * |out|..])
  }

  lemma {:induction false} HoldsNext(out: seq<byte>, current: nat, filled: nat, done: seq<bool>, b: bool)
    requires Holds(out, current, filled, done)
    ensures current + Bit(b) * Pow2(filled) < 256
    ensures filled < 7 ==> Holds(out, current + Bit(b) * Pow2(filled), filled + 1, done + [b])
    ensures filled == 7 ==> Holds(out + [current + Bit(b) * Pow2(filled)], 0, 0, done + [b])
  {
    hide Pow2, ValueOf, Pack;
    var n := 8 * |out|;
    var next := done + [b];
    ValueSnoc(done[n..], b);
    assert next[n..] == done[n..] + [b];
    ByteFits(next[n..]);
    assert next[..n] == done[..n];
    if filled == 7 {
      PackSnoc(next[..n], next[n..]);
      assert next[..n] + next[n..] == next;
      assert next[..n + 8] == next;
      EmptyValue(next[n + 8..]);
    }
  }

  lemma {:induction false} EmptyValue(bits: seq<bool>)
    requires bits == []
    ensures ValueOf(bits) == 0
  {
  }

  lemma {:induction false} HoldsAll(out: seq<byte>, current: nat, filled: nat, done: seq<bool>)
    requires Holds(out, current, filled, done)
    ensures filled == 0 ==> out == Pack(done)
    ensures filled > 0 ==> current < 256 && out + [current] == Pack(done)
  {
    hide ValueOf, Pack;
    var n := 8 * |out|;
    assert done[..n] + done[n..] == done;
    if filled > 0 {
      PackSnoc(done[..n], done[n..]);
      ByteFits(done[n..]);
    } else {
      assert done[..n] == done;
    }
  }

  /** The bits of a value, one after the other, are its low bits. */
  lemma BitsOfNext(value: nat, width: nat, k: nat)
    requires k < width
    ensures BitsOf(value, width)[..k] + [Shr(value, k) % 2 == 1] == BitsOf(value, width)[..k + 1]
  {
    hide BitsOf, Shr;
    BitAt(value, width, k);
  }

  /** `encode_u64`: one bit at a time into the byte under construction. */
  method EncodeU64(values: seq<u64>, width: byte) returns (r: Option<seq<byte>>)
    ensures r == Encode(values, width)
  {
    hide FlatBits, Pack, Pow2, BitsOf, Shr, Holds, ValueOf;
    if width > 64 {
      return None;
    }
    // With width zero the largest value is zero: every value has to vanish.
    for i := 0 to |values|
      invariant Fits(values[..i], width)
    {
      if values[i] >= Pow2(width) {
        assert !Fits(values, width);
        return None;
      }
    }
    assert values[..|values|] == values;
    if |values| * width >= U64_LIMIT {
      return None;
    }
    if values == [] || width == 0 {
      assert |FlatBits(values, width)| == 0;
      assert Pack(FlatBits(values, width)) == [];
      return Some([]);
    }
    var out: seq<byte>, current: nat, filled: nat := [], 0, 0;
    ghost var done: seq<bool> := [];
    HoldsNothing();
    for i := 0 to |values|
      invariant done == FlatBits(values[..i], width)
      invariant Holds(out, current, filled, done)
    {
      var value: nat := values[i];
      ghost var before := done;
      for k := 0 to width
        invariant done == before + BitsOf(value, width)[..k]
        invariant Holds(out, current, filled, done)
      {
        var bit := Shr(value, k) % 2;
        BitsOfNext(value, width, k);
        HoldsNext(out, current, filled, done, bit == 1);
        HoldsFilled(out, current, filled, done);
        assert before + BitsOf(value, width)[..k] + [bit == 1] == before + BitsOf(value, width)[..k + 1];
        done := done + [bit == 1];
        current, filled := current + bit * Pow2(filled), filled + 1;
        if filled == 8 {
          out := out + [current];
          current, filled := 0, 0;
        }
      }
      assert BitsOf(value, width)[..width] == BitsOf(value, width);
      FlatBitsSnoc(values, i, width);
    }
    HoldsAll(out, current, filled, done);
    if filled > 0 {
      out := out + [current];
    }
    return Some(out);
  }

  lemma HoldsNothing()
    ensures Holds([], 0, 0, []) && FlatBits([], 0) == [] && forall w :: FlatBits([], w) == []
  {
  }

  lemma {:induction false} HoldsFilled(out: seq<byte>, current: nat, filled: nat, done: seq<bool>)
    requires Holds(out, current, filled, done)
    ensures filled < 8
  {
  }

  /** The first `k` values of a chunking. */
  lemma {:induction false} ChunkAt(bits: seq<bool>, width: nat, count: nat, i: nat)
    requires |bits| == count * width && i < count
    ensures i * width + width <= |bits|
    ensures Chunk(bits, width, count)[i] == ValueOf(bits[i * width..i * width + width])
    decreases i
  {
    hide ValueOf;
    ChunkRoom(width, count);
    if i > 0 {
      ChunkRoom(width, i);
      ChunkAt(bits[width..], width, count - 1, i - 1);
      assert bits[width..][(i - 1) * width..(i - 1) * width + width] == bits[i * width..i * width + width];
    } else {
      assert 0 * width == 0;
    }
  }

  /** `decode_u64`: one bit at a time out of the bytes. */
  method DecodeU64(data: seq<byte>, width: byte, count: nat) returns (r: Option<seq<nat>>)
    ensures r == Decode(data, width, count)
  {
    hide Chunk, Pow2, Shr, ValueOf, AllBits, ZeroPadded;
    if width > 64 || count > MAX_DECODED_VALUES {
      return None;
    }
    if count * width >= U64_LIMIT {
      return None;
    }
    if |data| != ByteCount(count * width) {
      return None;
    }
    if width == 0 {
      ChunkEmpty(count);
      NothingPadded(data, count);
      return Some(seq(count, _ => 0));
    }
    if !ZeroPadded(data, count * width) {
      return None;
    }
    ghost var bits := AllBits(data)[..count * width];
    var values: seq<nat>, offset: nat := [], 0;
    for i := 0 to count
      invariant offset == i * width
      invariant values == Chunk(bits, width, count)[..i]
    {
      ChunkAt(bits, width, count, i);
      ghost var start := offset;
      assert (i + 1) * width == start + width;
      var value: nat := 0;
      EmptyValue(bits[start..start]);
      for k := 0 to width
        invariant offset == start + k && start + width <= |bits|
        invariant value == ValueOf(bits[start..offset])
      {
        UnpackedAt(data, |bits|, offset);
        var bit := Shr(data[offset / 8], offset % 8) % 2;
        ValueSnoc(bits[start..offset], bits[offset]);
        assert bits[start..offset] + [bits[offset]] == bits[start..offset + 1];
        value := value + bit * Pow2(k);
        offset := offset + 1;
      }
      values := values + [value];
    }
    assert Chunk(bits, width, count)[..count] == Chunk(bits, width, count);
    return Some(values);
  }

  lemma {:induction false} ChunkEmpty(count: nat)
    ensures Chunk([], 0, count) == seq(count, _ => 0)
    decreases count
  {
    if count > 0 {
      ChunkEmpty(count - 1);
      var none: seq<bool> := [];
      assert none[..0] == [] && none[0..] == [];
    }
  }

  lemma {:induction false} NothingPadded(data: seq<byte>, count: nat)
    requires |data| == ByteCount(count * 0)
    ensures Decode(data, 0, count) == if count > MAX_DECODED_VALUES then None else Some(Chunk([], 0, count))
  {
    assert count * 0 == 0;
    assert AllBits(data)[..0] == [];
  }
}
