/** The CMP1 frame (crates/compact-core/src/framing/mod.rs): magic, version, codec, length, CRC32, payload. */
module Framing {
  import opened Wrappers
  import opened Bytes

  const FRAME_HEADER_LEN: nat := 18
  const VERSION_V1: byte := 1

  const CODEC_COLUMN_BLOCK: byte := 0x10

  function MagicV1(): seq<byte> { Magic(0x43, 0x4D, 0x50, 0x31) }

  predicate KnownCodec(id: byte) {
    id == 0x01 || id == 0x02 || id == 0x03 || id == 0x04 || id == CODEC_COLUMN_BLOCK
  }

  datatype Frame = Frame(codec: byte, payload: seq<byte>)

  function EncodeFrame(crc: Checksum, codec: byte, payload: seq<byte>): (d: seq<byte>)
    ensures |d| == FRAME_HEADER_LEN + |payload|
  {
    MagicV1() + ([VERSION_V1, codec] + (Le64(|payload|) + (Le32(crc(payload)) + payload)))
  }

  function DecodeFrame(crc: Checksum, d: seq<byte>): Option<Frame> {
    if |d| < FRAME_HEADER_LEN then None
    else if d[..4] != MagicV1() then None
    else if d[4] != VERSION_V1 then None
    else if !KnownCodec(d[5]) then None
    else
      var payloadLen := Field(d, 6, 8);
      var expected := Field(d, 14, 4);
      if |d| != FRAME_HEADER_LEN + payloadLen then None
      else
        var payload := d[FRAME_HEADER_LEN..];
        if crc(payload) != expected then None else Some(Frame(d[5], payload))
  }

  /** A frame inside a buffer is its five fields, one after the other. */
  lemma {:induction false} FrameAt(crc: Checksum, data: seq<byte>, pos: nat, codec: byte, payload: seq<byte>)
    requires |payload| < U64_LIMIT
    ensures At(data, pos, EncodeFrame(crc, codec, payload)) <==>
            && At(data, pos, MagicV1())
            && At(data, pos + 4, [VERSION_V1, codec])
            && pos + FRAME_HEADER_LEN <= |data|
            && Field(data, pos + 6, 8) == |payload|
            && Field(data, pos + 14, 4) == crc(payload)
            && At(data, pos + FRAME_HEADER_LEN, payload)
  {
    Pow256Values();
    var tail4 := Le32(crc(payload)) + payload;
    var tail3 := Le64(|payload|) + tail4;
    var tail2 := [VERSION_V1, codec] + tail3;
    AtConcat(data, pos, MagicV1(), tail2);
    AtConcat(data, pos + 4, [VERSION_V1, codec], tail3);
    AtConcat(data, pos + 6, Le64(|payload|), tail4);
    AtConcat(data, pos + 14, Le32(crc(payload)), payload);
    AtField(data, pos + 6, 8, |payload|);
    AtField(data, pos + 14, 4, crc(payload));
  }

  /** A whole buffer is a frame when its fields are. */
  lemma {:induction false} WholeFrame(crc: Checksum, d: seq<byte>, codec: byte, payload: seq<byte>)
    requires |d| == FRAME_HEADER_LEN + |payload| && |d| < U64_LIMIT
    ensures d == EncodeFrame(crc, codec, payload) <==>
            && d[..4] == MagicV1() && d[4] == VERSION_V1 && d[5] == codec
            && Field(d, 6, 8) == |payload| && Field(d, 14, 4) == crc(payload) && d[FRAME_HEADER_LEN..] == payload
  {
    hide EncodeFrame, Field;
    FrameAt(crc, d, 0, codec, payload);
    assert d[0..|d|] == d && d[0..4] == d[..4];
    assert d[4..6] == [d[4], d[5]];
    assert d[FRAME_HEADER_LEN..FRAME_HEADER_LEN + |payload|] == d[FRAME_HEADER_LEN..];
  }

  /** Decoding accepts exactly the encoder's bytes: the two are inverse on everything either accepts. */
  lemma {:induction false} DecodeFrameIff(crc: Checksum, d: seq<byte>, codec: byte, payload: seq<byte>)
    requires |d| < U64_LIMIT
    ensures DecodeFrame(crc, d) == Some(Frame(codec, payload)) <==>
            KnownCodec(codec) && d == EncodeFrame(crc, codec, payload)
  {
    hide EncodeFrame, Field, MagicV1, KnownCodec;
    if |d| == FRAME_HEADER_LEN + |payload| {
      WholeFrame(crc, d, codec, payload);
    }
  }
}
