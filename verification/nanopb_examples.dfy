/** Fields on the wire, byte by byte: examples of the Protocol Buffers encoding document, and one of each wire type. */
module PbExamples {
  import opened Bytes
  import opened PbMessage
  import opened PbVarint

  /** Varints have their high bit set where another byte follows, seven bits at a time from the low end. */
  lemma Varints()
    ensures VarintBytes(1) == [0x01] && VarintBytes(150) == [0x96, 0x01] && VarintBytes(300) == [0xAC, 0x02]
    ensures VarintBytes(86942) == [0x9E, 0xA7, 0x05]
  {
  }

  /** All bits set, seven to a byte and one on top. */
  lemma {:induction false} AllOnes(v: nat, k: nat)
    requires v == 2 * Pow128(k) - 1
    ensures |VarintBytes(v)| == k + 1 && VarintBytes(v)[k] == 0x01
    ensures forall i :: 0 <= i < k ==> VarintBytes(v)[i] == 0xFF
    decreases k
  {
    if k > 0 {
      var rest := v / 128;
      SevenOnes(v, Pow128(k - 1));
      AllOnes(rest, k - 1);
      assert VarintBytes(v) == [0xFF] + VarintBytes(rest);
    }
  }

  lemma SevenOnes(v: nat, p: nat)
    requires p > 0 && v == 2 * (128 * p) - 1
    ensures v >= 128 && v / 128 == 2 * p - 1 && v % 128 == 127
  {
  }

  /** A negative number of an unsigned kind takes ten bytes, */
  lemma MinusOne(v: Int64)
    requires v == -1
    ensures VarintBytes(ToUnsigned(v)) == [0xFF, 0xFF, 0xFF, 0xFF, 0xFF, 0xFF, 0xFF, 0xFF, 0xFF, 0x01]
  {
    Powers();
    AllOnes(ToUnsigned(v), 9);
  }

  /** and the zigzag kinds alternate. */
  lemma ZigZags()
    ensures ZigZag(0) == 0 && ZigZag(-1) == 1 && ZigZag(1) == 2 && ZigZag(-2) == 3
    ensures ZigZag(0x7FFF_FFFF) == 0xFFFF_FFFE && ZigZag(-0x8000_0000) == 0xFFFF_FFFF
  {
  }

  /** What a number field holds. */
  lemma Ranges(i: int)
    ensures Typed(BOOL, Int(i)) <==> i == 0 || i == 1
    ensures Typed(VARINT(1), Int(i)) <==> -128 <= i <= 127
    ensures Typed(VARINT(2), Int(i)) <==> -32768 <= i <= 32767
    ensures Typed(VARINT(4), Int(i)) <==> -0x8000_0000 <= i <= 0x7FFF_FFFF
    ensures Typed(VARINT(8), Int(i)) <==> -0x8000_0000_0000_0000 <= i <= 0x7FFF_FFFF_FFFF_FFFF
    ensures forall size :: Typed(SVARINT(size), Int(i)) <==> Typed(VARINT(size), Int(i))
    ensures Typed(UVARINT(1), Int(i)) <==> 0 <= i <= 255
    ensures Typed(UVARINT(2), Int(i)) <==> 0 <= i <= 65535
    ensures Typed(UVARINT(4), Int(i)) <==> 0 <= i <= 0xFFFF_FFFF
    ensures Typed(UVARINT(8), Int(i)) <==> 0 <= i <= 0xFFFF_FFFF_FFFF_FFFF
    ensures Typed(FIXED32, Int(i)) <==> Typed(UVARINT(4), Int(i))
    ensures Typed(FIXED64, Int(i)) <==> Typed(UVARINT(8), Int(i))
    ensures forall size :: ValidSize(size) <==> size in {1, 2, 4, 8}
    ensures forall max, b :: Fits(BYTES(max), Blob(b)) <==> |b| <= max
  {
  }

  // ---------- Fields ----------

  function Numbered(tag: nat, t: LType, dflt: Value): Schema {
    Schema([Field(tag, SINGULAR, t, dflt)])
  }

  /** A field of one value: its number and wire type in the first byte, and then the value. */
  lemma OneField(schema: Schema, v: Value)
    requires |schema.fields| == 1 && Typed(schema.fields[0].ltype, v) && Fits(schema.fields[0].ltype, v)
    requires 0 < schema.fields[0].tag < 16
    ensures var f, t := schema.fields[0], Single(0, Scalar(v));
      && ValidToken(schema, t)
      && TokenBytes(schema, t) == [f.tag * 8 + WireType(f.ltype)] + ScalarBytes(f.ltype, v)
  {
    var f, t := schema.fields[0], Single(0, Scalar(v));
    assert ValidItem(f.ltype, Scalar(v)) && ValidToken(schema, t);
    assert TagBytes(f.tag, WireType(f.ltype)) == [f.tag * 8 + WireType(f.ltype)];
    assert PayloadBytes(schema, t) == ItemBytes(f.ltype, Scalar(v)) == ScalarBytes(f.ltype, v);
  }

  /** The document's first example: field 1 is the number 150. */
  lemma Number(schema: Schema)
    requires schema == Numbered(1, VARINT(4), Int(0))
    ensures ValidToken(schema, Single(0, Scalar(Int(150))))
    ensures TokenBytes(schema, Single(0, Scalar(Int(150)))) == [0x08, 0x96, 0x01]
  {
    Varints();
    OneField(schema, Int(150));
  }

  /** Its string: field 2 is "testing". */
  lemma Testing(schema: Schema, text: seq<Byte>)
    requires schema == Numbered(2, STRING(8), Blob([]))
    requires text == [0x74, 0x65, 0x73, 0x74, 0x69, 0x6E, 0x67]
    ensures ValidToken(schema, Single(0, Scalar(Blob(text))))
    ensures TokenBytes(schema, Single(0, Scalar(Blob(text)))) == [0x12, 0x07] + text
  {
    OneField(schema, Blob(text));
    assert VarintBytes(7) == [0x07];
  }

  /** Fixed-size numbers: wire type 5 for four bytes ... */
  lemma Fixed32(schema: Schema, v: Value)
    requires schema == Numbered(5, FIXED32, Int(0)) && v == Int(0x0403_0201)
    ensures ValidToken(schema, Single(0, Scalar(v)))
    ensures TokenBytes(schema, Single(0, Scalar(v))) == [0x2D, 1, 2, 3, 4]
  {
    OneField(schema, v);
    assert EncodeFixed(0x0403_0201, 4) == [1, 2, 3, 4];
  }

  /** ... and 1 for eight, low byte first. */
  lemma Fixed64(schema: Schema, v: Value)
    requires schema == Numbered(6, FIXED64, Int(0)) && v == Int(0x0807_0605_0403_0201)
    ensures ValidToken(schema, Single(0, Scalar(v)))
    ensures TokenBytes(schema, Single(0, Scalar(v))) == [0x31, 1, 2, 3, 4, 5, 6, 7, 8]
  {
    OneField(schema, v);
    EightBytes(v.i);
  }

  lemma LowByte(v: nat, n: nat, b: Byte, rest: nat)
    requires v == rest * 256 + b
    ensures EncodeFixed(v, n + 1) == [b] + EncodeFixed(rest, n)
  {
  }

  lemma EightBytes(v: nat)
    requires v == 0x0807_0605_0403_0201
    ensures EncodeFixed(v, 8) == [1, 2, 3, 4, 5, 6, 7, 8]
  {
    LowByte(v, 7, 1, 0x08_0706_0504_0302);
    LowByte(0x08_0706_0504_0302, 6, 2, 0x0807_0605_0403);
    LowByte(0x0807_0605_0403, 5, 3, 0x08_0706_0504);
    LowByte(0x08_0706_0504, 4, 4, 0x0807_0605);
    assert EncodeFixed(0x0807_0605, 4) == [5, 6, 7, 8];
  }

  /** Its submessage: field 3 is the first example. */
  lemma Nested(schema: Schema, inner: Schema)
    requires inner == Numbered(1, VARINT(4), Int(0)) && schema == Numbered(3, SUBMESSAGE(inner), Int(0))
    ensures var t := Single(0, Sub([Single(0, Scalar(Int(150)))]));
      ValidToken(schema, t) && TokenBytes(schema, t) == [0x1A, 0x03, 0x08, 0x96, 0x01]
  {
    Number(inner);
    var ts := [Single(0, Scalar(Int(150)))];
    assert ts[1..] == [] && TokensBytes(inner, ts) == TokenBytes(inner, ts[0]) + [];
    assert VarintBytes(26) == [0x1A] && VarintBytes(3) == [0x03];
  }

  /** Its packed array: field 4 is 3, 270, 86942. */
  lemma PackedArray(schema: Schema, values: seq<Value>)
    requires schema == Schema([Field(4, REPEATED(3), VARINT(4), Int(0))])
    requires values == [Int(3), Int(270), Int(86942)]
    ensures ValidToken(schema, Packed(0, values))
    ensures TokenBytes(schema, Packed(0, values)) == [0x22, 0x06, 0x03, 0x8E, 0x02, 0x9E, 0xA7, 0x05]
  {
    var payload: seq<Byte> := [0x03, 0x8E, 0x02, 0x9E, 0xA7, 0x05];
    ThreeNumbers(values);
    OnePacked(schema, values, payload);
    Framed(payload);
  }

  lemma Framed(payload: seq<Byte>)
    requires payload == [0x03, 0x8E, 0x02, 0x9E, 0xA7, 0x05]
    ensures TagBytes(4, 2) + Delimited(payload) == [0x22, 0x06, 0x03, 0x8E, 0x02, 0x9E, 0xA7, 0x05]
  {
    OneByte(34);
    OneByte(6);
  }

  lemma OnePacked(schema: Schema, values: seq<Value>, payload: seq<Byte>)
    requires |schema.fields| == 1 && 0 < schema.fields[0].tag < 16 && |payload| < 128
    requires schema.fields[0].htype.REPEATED? && IsPackable(schema.fields[0].ltype)
    requires forall k :: 0 <= k < |values| ==> Typed(schema.fields[0].ltype, values[k])
    requires ScalarsBytes(schema.fields[0].ltype, values) == payload
    ensures ValidToken(schema, Packed(0, values))
    ensures TokenBytes(schema, Packed(0, values)) == TagBytes(schema.fields[0].tag, 2) + Delimited(payload)
  {
    assert PayloadBytes(schema, Packed(0, values)) == Delimited(payload);
  }

  lemma OneByte(v: nat)
    requires v < 128
    ensures VarintBytes(v) == [v]
  {
  }

  lemma ThreeNumbers(values: seq<Value>)
    requires values == [Int(3), Int(270), Int(86942)]
    ensures ScalarsBytes(VARINT(4), values) == [0x03, 0x8E, 0x02, 0x9E, 0xA7, 0x05]
  {
    Varints();
    assert VarintBytes(3) == [0x03] && VarintBytes(270) == [0x8E, 0x02];
    Each(values);
  }

  lemma Each(values: seq<Value>)
    requires values == [Int(3), Int(270), Int(86942)]
    ensures ScalarsBytes(VARINT(4), values) == VarintBytes(3) + (VarintBytes(270) + (VarintBytes(86942) + []))
  {
    var two, one := values[1..], values[1..][1..];
    assert two == [Int(270), Int(86942)] && one == [Int(86942)] && one[1..] == [];
    assert ScalarsBytes(VARINT(4), one) == VarintBytes(86942) + [];
    assert ScalarsBytes(VARINT(4), two) == VarintBytes(270) + ScalarsBytes(VARINT(4), one);
  }
}
