/** Encoding and decoding together. */
module PbCodec {
  import opened Bytes
  import opened PbStream
  import opened PbVarint
  import opened PbMessage
  import opened PbMeaning
  import opened PbEncode
  import opened PbDecode
  import opened PbSame

  /** pb_get_encoded_size: the count is the number of bytes that encoding writes. */
  method GetEncodedSize(schema: Schema, slots: seq<Slot>, pack: bool) returns (ok: bool, size: nat)
    requires ValidSchema(schema) && ValidMessage(schema, slots) && SmallMessage(schema, slots, pack)
    ensures ok <==> Encodable(schema, slots)
    ensures ok ==> size == |MessageBytes(schema, slots, pack)|
  {
    var stream := new OStream.Sizing();
    ok := Encode(stream, schema, slots, pack);
    size := stream.bytesWritten;
  }

  /** With a buffer of the size counted, encoding succeeds, and with any smaller one it fails. */
  method EncodeToBuffer(schema: Schema, slots: seq<Slot>, pack: bool, bufsize: nat) returns (ok: bool, buf: seq<Byte>)
    requires ValidSchema(schema) && ValidMessage(schema, slots) && SmallMessage(schema, slots, pack)
    ensures ok <==> Encodable(schema, slots) && |MessageBytes(schema, slots, pack)| <= bufsize
    ensures ok ==> buf == MessageBytes(schema, slots, pack)
  {
    var stream := new OStream.Buffer([], bufsize);
    ok := Encode(stream, schema, slots, pack);
    buf := stream.state;
  }

  /** Decoding the bytes of a message succeeds, uses them all, and gives its present fields back, with
      everything else set to defaults. */
  method DecodeBuffer(schema: Schema, ghost slots: seq<Slot>, ghost pack: bool, buf: seq<Byte>)
    returns (ok: bool, left: nat, decoded: seq<Slot>)
    requires ValidSchema(schema)
    ensures
      ValidMessage(schema, slots) && Encodable(schema, slots) && |buf| < TWO32 ==>
      buf == MessageBytes(schema, slots, pack) ==>
      ok && left == 0 && decoded == Normal(schema, slots) && SameMessage(schema, slots, decoded)
  {
    var stream := new IStream(buf, 0, |buf|);
    assert stream.Left() == buf;
    ghost var ts: seq<Token> := [];
    if ValidMessage(schema, slots) && Encodable(schema, slots) {
      ts := TokensOf(schema, slots, pack);
      TokensValid(schema, slots, pack);
      MessageRoundTrip(schema, slots, pack);
      MessageIsKept(schema, slots);
    }
    ok, decoded := Decode(stream, schema, ts);
    left := stream.bytesLeft;
  }

  /** The round trip, for every message that is within its storage and shorter than 4 GiB. */
  method RoundTrip(schema: Schema, slots: seq<Slot>, pack: bool) returns (ok: bool, decoded: seq<Slot>)
    requires ValidSchema(schema) && ValidMessage(schema, slots) && SmallMessage(schema, slots, pack)
    ensures Encodable(schema, slots) && |MessageBytes(schema, slots, pack)| < TWO32 ==>
      ok && decoded == Normal(schema, slots) && SameMessage(schema, slots, decoded)
    ensures ok ==> Encodable(schema, slots)
  {
    var size, buf, left;
    decoded := [];
    ok, size := GetEncodedSize(schema, slots, pack);
    if !ok {
      return;
    }
    ok, buf := EncodeToBuffer(schema, slots, pack, size);
    assert ok;
    ok, left, decoded := DecodeBuffer(schema, slots, pack, buf);
  }
}
