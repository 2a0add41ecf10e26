/** nanopb's decoder: on the bytes of any sequence of tokens it does what the tokens mean. */
module PbDecode {
  import opened Bytes
  import opened PbStream
  import opened PbVarint
  import opened PbMessage
  import opened PbMeaning
  import opened Wrappers
  import Iter = PbFieldIter

  /** `n` bytes have been read since the stream was in its earlier state. */
  twostate predicate Advanced(stream: IStream, n: nat)
    reads stream
  {
    && old(stream.Valid()) && stream.Valid()
    && n <= old(stream.bytesLeft)
    && stream.state == old(stream.state) + n && stream.bytesLeft == old(stream.bytesLeft) - n
    && stream.Left() == old(stream.Left())[n..]
  }

  /** Whatever was read, the end is where it was. */
  twostate predicate SameEnd(stream: IStream)
    reads stream
  {
    stream.Valid() && stream.bytesLeft <= old(stream.bytesLeft)
    && stream.state + stream.bytesLeft == old(stream.state) + old(stream.bytesLeft)
  }

  lemma PrefixSplit(left: seq<Byte>, a: seq<Byte>, b: seq<Byte>)
    requires a + b <= left
    ensures a <= left && b <= left[|a|..] && left[|a|..][|b|..] == left[|a + b|..]
  {
    assert left[..|a + b|] == a + b;
    assert left[..|a|] == a;
    assert left[|a|..][..|b|] == b;
  }

  // ---------- Tags, lengths and fields that are skipped ----------

  /** A varint of 32 bits, where one is next. */
  method Varint32(stream: IStream, ghost v0: nat) returns (ok: bool, v: nat)
    requires stream.Valid()
    modifies stream
    ensures stream.Valid()
    ensures ok ==> SameEnd(stream) && stream.bytesLeft < old(stream.bytesLeft) && v < TWO32
    ensures v0 < TWO32 && VarintBytes(v0) <= old(stream.Left()) ==> ok && v == v0 && Advanced(stream, |VarintBytes(v0)|)
  {
    if v0 < TWO32 && VarintBytes(v0) <= stream.Left() { DecodesBack(v0, stream.Left()); }
    ok, v := DecodeVarint32(stream);
  }

  /** A varint of 64 bits, where one is next. */
  method Varint64(stream: IStream, ghost v0: nat) returns (ok: bool, v: nat)
    requires stream.Valid()
    modifies stream
    ensures stream.Valid()
    ensures ok ==> SameEnd(stream) && v < TWO64
    ensures v0 < TWO64 && VarintBytes(v0) <= old(stream.Left()) ==> ok && v == v0 && Advanced(stream, |VarintBytes(v0)|)
  {
    if v0 < TWO64 && VarintBytes(v0) <= stream.Left() { DecodesBack(v0, stream.Left()); }
    ok, v := DecodeVarint(stream);
  }

  /** pb_decode_tag */
  method DecodeTag(stream: IStream, ghost tag0: nat, ghost wireType0: nat)
    returns (ok: bool, wireType: nat, tag: nat, eof: bool)
    requires stream.Valid()
    modifies stream
    ensures stream.Valid()
    ensures ok ==> SameEnd(stream) && stream.bytesLeft < old(stream.bytesLeft)
    ensures eof ==> SameEnd(stream)
    ensures old(stream.Left()) == [] ==> !ok && eof
    ensures 0 < tag0 < 0x2000_0000 && wireType0 < 8 && TagBytes(tag0, wireType0) <= old(stream.Left()) ==>
      ok && tag == tag0 && wireType == wireType0 && Advanced(stream, |TagBytes(tag0, wireType0)|)
  {
    ghost var v0 := tag0 * 8 + wireType0;
    if v0 < TWO32 && VarintBytes(v0) <= stream.Left() { DecodesBack(v0, stream.Left()); }
    var temp;
    wireType, tag := 0, 0;
    ok, temp, eof := DecodeVarint32Eof(stream);
    if !ok {
      return;
    }
    if temp == 0 {
      return false, 0, 0, true;
    }
    tag := temp / 8;
    wireType := temp % 8;
  }

  /** Bytes, where these are next. */
  method ReadBytes(stream: IStream, count: nat, ghost b: seq<Byte>) returns (ok: bool, bytes: seq<Byte>)
    requires stream.Valid()
    modifies stream
    ensures stream.Valid()
    ensures ok ==> SameEnd(stream) && |bytes| == count
    ensures |b| == count && b <= old(stream.Left()) ==> ok && bytes == b && Advanced(stream, count)
  {
    ok, bytes := stream.Read(count);
  }

  /** A length and bytes, where they are next. */
  method ReadDelimited(stream: IStream, limit: nat, ghost b: seq<Byte>) returns (ok: bool, bytes: seq<Byte>)
    requires stream.Valid()
    modifies stream
    ensures stream.Valid()
    ensures ok ==> SameEnd(stream) && |bytes| <= limit
    ensures |b| < TWO32 && |b| <= limit && Delimited(b) <= old(stream.Left()) ==>
      ok && bytes == b && Advanced(stream, |Delimited(b)|)
  {
    bytes := [];
    if Delimited(b) <= stream.Left() { PrefixSplit(stream.Left(), VarintBytes(|b|), b); }
    var size;
    ok, size := Varint32(stream, |b|);
    if !ok {
      return;
    }
    if size > limit {
      return false, [];
    }
    ok, bytes := ReadBytes(stream, size, b);
  }

  /** pb_skip_field */
  method SkipField(stream: IStream, wireType: nat, ghost raw: Raw) returns (ok: bool)
    requires stream.Valid()
    modifies stream
    ensures stream.Valid()
    ensures ok ==> SameEnd(stream)
    ensures ValidRaw(raw) && wireType == RawWireType(raw) && RawBytes(raw) <= old(stream.Left()) ==>
      ok && Advanced(stream, |RawBytes(raw)|)
  {
    ok := false;
    var skipped;
    if wireType == 0 {
      if raw.RawVarint? && ValidRaw(raw) && RawBytes(raw) <= stream.Left() { DecodesBack(raw.v, stream.Left()); }
      ok := SkipVarint(stream);
    } else if wireType == 1 {
      ok, skipped := ReadBytes(stream, 8, RawBytes(raw));
    } else if wireType == 2 {
      ok, skipped := ReadDelimited(stream, TWO32, if raw.RawString? then raw.b else []);
    } else if wireType == 5 {
      ok, skipped := ReadBytes(stream, 4, RawBytes(raw));
    }
  }

  // ---------- Scalars ----------

  /** The cast of `x` to a signed integer of `size` bytes. */
  function CastSigned(x: int, size: nat): (r: int)
    requires ValidSize(size)
    ensures -Half(size) <= r < Half(size)
  {
    var m := CastUnsigned(x, size);
    if m < Half(size) then m else m - 2 * Half(size)
  }

  /** The cast of `x` to an unsigned integer of `size` bytes. */
  function CastUnsigned(x: int, size: nat): (r: int)
    requires ValidSize(size)
    ensures 0 <= r < 2 * Half(size)
  {
    if size == 1 then x % 0x100
    else if size == 2 then x % 0x1_0000
    else if size == 4 then x % 0x1_0000_0000
    else x % 0x1_0000_0000_0000_0000
  }

  lemma CastKeeps(x: int, size: nat)
    requires ValidSize(size)
    ensures -Half(size) <= x < Half(size) ==> CastSigned(x, size) == x
    ensures 0 <= x < 2 * Half(size) ==> CastUnsigned(x, size) == x
  {
  }

  /** (int32_t) of the 64-bit pattern of a 32-bit value */
  lemma CastBack32(v: Int64)
    requires -0x8000_0000 <= v < 0x8000_0000
    ensures CastSigned(ToUnsigned(v), 4) == v && CastSigned(v + (if v < 0 then 0x1_0000_0000 else 0), 4) == v
  {
    if v < 0 {
      assert ToUnsigned(v) == 0xFFFF_FFFF * 0x1_0000_0000 + (v + 0x1_0000_0000);
    }
  }

  lemma Clamped64(value: nat)
    requires value < TWO64
    ensures var s := ToSigned(value);
      CastSigned(s, 8) == s && (s >= 0 ==> s == value) && (s < 0 ==> s + 0x1_0000_0000_0000_0000 == value)
  {
  }

  /** What is kept of a value of up to 32 bits, and which values a shorter field keeps. */
  lemma ClampedShort(value: nat, size: nat)
    requires size in {1, 2, 4}
    ensures var s := CastSigned(value, 4);
      && (s >= 0 ==> s == value % 0x1_0000_0000) && (s < 0 ==> s + 0x1_0000_0000 == value % 0x1_0000_0000)
      && (CastSigned(s, size) == s <==> -Half(size) <= s < Half(size))
  {
    CastKeeps(CastSigned(value, 4), size);
  }

  /** pb_dec_varint after reading: the cast of old 32-bit encodings, and the range check. */
  method ClampVarint(value: nat, size: nat) returns (ok: bool, v: int)
    requires ValidSize(size) && value < TWO64
    ensures ok ==> -Half(size) <= v < Half(size)
    ensures forall i: int :: -Half(size) <= i < Half(size) && SentAs(value, i, size) ==> ok && v == i
    ensures ok && v >= 0 && size == 8 ==> v == value
    ensures ok && v >= 0 && size < 8 ==> v == value % 0x1_0000_0000
    ensures ok && v < 0 && size == 8 ==> v + 0x1_0000_0000_0000_0000 == value
    ensures ok && v < 0 && size < 8 ==> v + 0x1_0000_0000 == value % 0x1_0000_0000
    ensures size == 4 || size == 8 ==> ok
    ensures size == 2 ==> (ok <==> value % 0x1_0000_0000 < 0x8000 || value % 0x1_0000_0000 >= 0xFFFF_8000)
    ensures size == 1 ==> (ok <==> value % 0x1_0000_0000 < 0x80 || value % 0x1_0000_0000 >= 0xFFFF_FF80)
  {
    var svalue := if size == 8 then ToSigned(value) else CastSigned(value, 4);
    v := CastSigned(svalue, size);
    ok := v == svalue;
    if size == 8 { Clamped64(value); } else { ClampedShort(value, size); }
    forall i: int | -Half(size) <= i < Half(size) && SentAs(value, i, size) ensures ok && v == i {
      CastKeeps(i, size);
      if size != 8 { CastBack32(i); }
    }
  }

  /** How encoders send `i`: sign-extended to 64 bits, or, older ones and for up to 32 bits, to 32 bits only. */
  predicate SentAs(value: nat, i: Int64, size: nat) {
    value == ToUnsigned(i) || (size <= 4 && i < 0 && value == i + 0x1_0000_0000)
  }

  /** A C string in its memory: what comes before the terminator. */
  function UpToNul(b: seq<Byte>): (r: seq<Byte>)
    ensures 0 !in r && |r| <= |b|
    ensures 0 !in b ==> r == b
  {
    if b == [] || b[0] == 0 then [] else [b[0]] + UpToNul(b[1..])
  }

  /** The scalar `v0` is next. */
  ghost predicate ScalarNext(t: LType, v0: Value, left: seq<Byte>) {
    Typed(t, v0) && Fits(t, v0) && ScalarBytes(t, v0) <= left
  }

  /** pb_dec_bool */
  method DecBool(stream: IStream, t: LType, ghost v0: Value) returns (ok: bool, v: Value)
    requires stream.Valid() && ValidLType(t) && t.BOOL?
    modifies stream
    ensures stream.Valid()
    ensures v.Int? && (ok ==> SameEnd(stream))
    ensures ScalarNext(t, v0, old(stream.Left())) ==> ok && v == v0 && Advanced(stream, |ScalarBytes(t, v0)|)
  {
    ghost var next := ScalarNext(t, v0, stream.Left());
    var value;
    ok, value := Varint32(stream, if next then v0.i else 0);
    v := Int(if value != 0 then 1 else 0);
  }

  /** pb_dec_varint */
  method DecVarint(stream: IStream, t: LType, ghost v0: Value) returns (ok: bool, v: Value)
    requires stream.Valid() && ValidLType(t) && t.VARINT?
    modifies stream
    ensures stream.Valid()
    ensures v.Int? && (ok ==> SameEnd(stream))
    ensures ScalarNext(t, v0, old(stream.Left())) ==> ok && v == v0 && Advanced(stream, |ScalarBytes(t, v0)|)
  {
    ghost var next := ScalarNext(t, v0, stream.Left());
    var value, i;
    v := Int(0);
    ok, value := Varint64(stream, if next then ToUnsigned(v0.i) else 0);
    if ok {
      assert next ==> SentAs(value, v0.i, t.size);
      ok, i := ClampVarint(value, t.size);
      v := Int(i);
    }
  }

  /** pb_dec_uvarint */
  method DecUVarint(stream: IStream, t: LType, ghost v0: Value) returns (ok: bool, v: Value)
    requires stream.Valid() && ValidLType(t) && t.UVARINT?
    modifies stream
    ensures stream.Valid()
    ensures v.Int? && (ok ==> SameEnd(stream))
    ensures ScalarNext(t, v0, old(stream.Left())) ==> ok && v == v0 && Advanced(stream, |ScalarBytes(t, v0)|)
  {
    ghost var next := ScalarNext(t, v0, stream.Left());
    var value;
    ok, value := Varint64(stream, if next then v0.i else 0);
    if next { CastKeeps(v0.i, t.size); }
    v := Int(CastUnsigned(value, t.size));
    ok := ok && v.i == value;
  }

  /** pb_dec_svarint */
  method DecSVarint(stream: IStream, t: LType, ghost v0: Value) returns (ok: bool, v: Value)
    requires stream.Valid() && ValidLType(t) && t.SVARINT?
    modifies stream
    ensures stream.Valid()
    ensures v.Int? && (ok ==> SameEnd(stream))
    ensures ScalarNext(t, v0, old(stream.Left())) ==> ok && v == v0 && Advanced(stream, |ScalarBytes(t, v0)|)
  {
    ghost var next := ScalarNext(t, v0, stream.Left());
    var value;
    if next {
      DecodesBack(ZigZag(v0.i), stream.Left());
      CastKeeps(v0.i, t.size);
    }
    ok, value := DecodeSVarint(stream);
    if next { ZigZagInjective(value, v0.i); }
    v := Int(CastSigned(value, t.size));
    ok := ok && v.i == value;
  }

  /** pb_dec_fixed32, pb_dec_fixed64 */
  method DecFixed(stream: IStream, t: LType, ghost v0: Value) returns (ok: bool, v: Value)
    requires stream.Valid() && (t.FIXED32? || t.FIXED64?)
    modifies stream
    ensures stream.Valid()
    ensures v.Int? && (ok ==> SameEnd(stream))
    ensures ScalarNext(t, v0, old(stream.Left())) ==> ok && v == v0 && Advanced(stream, |ScalarBytes(t, v0)|)
  {
    var n := if t.FIXED32? then 4 else 8;
    ghost var next := ScalarNext(t, v0, stream.Left());
    var bytes;
    if next {
      Pow256Of8();
      DecodeEncodeFixed(v0.i, n);
    }
    ok, bytes := ReadBytes(stream, n, if next then ScalarBytes(t, v0) else []);
    v := Int(if ok then DecodeFixed(bytes) else 0);
  }

  /** pb_dec_bytes, pb_dec_string */
  method DecBlob(stream: IStream, t: LType, ghost v0: Value) returns (ok: bool, v: Value)
    requires stream.Valid() && ValidLType(t) && (t.BYTES? || t.STRING?)
    modifies stream
    ensures stream.Valid()
    ensures v.Blob? && (ok ==> SameEnd(stream))
    ensures ScalarNext(t, v0, old(stream.Left())) ==> ok && v == v0 && Advanced(stream, |ScalarBytes(t, v0)|)
  {
    ghost var b := if ScalarNext(t, v0, stream.Left()) then v0.b else [];
    var bytes;
    ok, bytes := ReadDelimited(stream, if t.BYTES? then t.max else t.dataSize - 1, b);
    v := Blob(if t.STRING? then UpToNul(bytes) else bytes);
  }

  function Zeros(n: nat): (z: seq<Byte>)
    ensures |z| == n && (n == 0 ==> z == []) && forall k :: 0 <= k < n ==> z[k] == 0
  {
    seq(n, _ => 0)
  }

  /** Delimited bytes start with a zero only if there are none. */
  lemma FirstOfDelimited(b: seq<Byte>, left: seq<Byte>)
    ensures left != [] && left[0] == 0 ==> VarintBytes(0) == [0] <= left
    ensures left != [] && left[0] == 0 && Delimited(b) <= left ==> b == []
    ensures Delimited(b) <= left ==> VarintBytes(|b|) <= left && b <= left[|VarintBytes(|b|)|..]
    ensures Delimited(b) <= left ==> left[|VarintBytes(|b|)|..][|b|..] == left[|Delimited(b)|..]
  {
    if Delimited(b) <= left {
      PrefixSplit(left, VarintBytes(|b|), b);
      assert Delimited(b)[0] == VarintBytes(|b|)[0] == left[0];
    }
  }

  /** pb_dec_fixed_length_bytes: an empty byte string stands for zeros. */
  method DecFixedLengthBytes(stream: IStream, len: nat, ghost v0: Value) returns (ok: bool, v: Value)
    requires stream.Valid() && len <= Iter.PB_SIZE_MAX
    modifies stream
    ensures stream.Valid()
    ensures v.Blob? && (ok ==> SameEnd(stream) && |v.b| == len)
    ensures old(stream.Left()) != [] && old(stream.Left())[0] == 0 ==> ok && v.b == Zeros(len) && Advanced(stream, 1)
    ensures ScalarNext(FIXED_LENGTH_BYTES(len), v0, old(stream.Left())) ==>
      ok && v == v0 && Advanced(stream, |ScalarBytes(FIXED_LENGTH_BYTES(len), v0)|)
  {
    ghost var b := if ScalarNext(FIXED_LENGTH_BYTES(len), v0, stream.Left()) then v0.b else [];
    FirstOfDelimited(b, stream.Left());
    var size, bytes;
    v := Blob([]);
    ok, size := Varint32(stream, |b|);
    if !ok {
      return;
    }
    if size > Iter.PB_SIZE_MAX {
      return false, v;
    }
    if size == 0 {
      return true, Blob(Zeros(len));
    }
    if size != len {
      return false, v;
    }
    ok, bytes := ReadBytes(stream, len, b);
    v := Blob(bytes);
  }

  /** The entry of PB_DECODERS for a scalar type. */
  method DecScalar(stream: IStream, t: LType, ghost v0: Value) returns (ok: bool, v: Value)
    requires stream.Valid() && ValidLType(t) && !t.SUBMESSAGE?
    modifies stream
    ensures stream.Valid()
    ensures ShapedValue(t, v) && (ok ==> SameEnd(stream))
    ensures ScalarNext(t, v0, old(stream.Left())) ==> ok && v == v0 && Advanced(stream, |ScalarBytes(t, v0)|)
  {
    match t
    case BYTES(_) => ok, v := DecBlob(stream, t, v0);
    case STRING(_) => ok, v := DecBlob(stream, t, v0);
    case FIXED_LENGTH_BYTES(len) => ok, v := DecFixedLengthBytes(stream, len, v0);
    case FIXED32 => ok, v := DecFixed(stream, t, v0);
    case FIXED64 => ok, v := DecFixed(stream, t, v0);
    case BOOL => ok, v := DecBool(stream, t, v0);
    case VARINT(_) => ok, v := DecVarint(stream, t, v0);
    case UVARINT(_) => ok, v := DecUVarint(stream, t, v0);
    case SVARINT(_) => ok, v := DecSVarint(stream, t, v0);
  }

  // ---------- Substreams ----------

  lemma SliceTake(buf: seq<Byte>, p: nat, n: nat, k: nat)
    requires k <= n && p + n <= |buf|
    ensures buf[p..p + n][..k] == buf[p..p + k]
  {
  }

  /** pb_make_string_substream */
  method MakeSubstream(stream: IStream, ghost b: seq<Byte>) returns (ok: bool, sub: IStream)
    requires stream.Valid()
    modifies stream
    ensures stream.Valid() && fresh(sub) && sub.Valid()
    ensures ok ==>
      && sub.buf == stream.buf && sub.state == stream.state
      && stream.state + sub.bytesLeft + stream.bytesLeft == old(stream.state) + old(stream.bytesLeft)
      && stream.bytesLeft <= old(stream.bytesLeft)
    ensures |b| < TWO32 && Delimited(b) <= old(stream.Left()) ==>
      && ok && sub.Left() == b
      && stream.state == old(stream.state) + |VarintBytes(|b|)|
      && stream.bytesLeft == old(stream.bytesLeft) - |Delimited(b)|
  {
    if Delimited(b) <= stream.Left() { PrefixSplit(stream.Left(), VarintBytes(|b|), b); }
    var size;
    ok, size := Varint32(stream, |b|);
    if !ok || stream.bytesLeft < size {
      sub := new IStream([], 0, 0);
      return false, sub;
    }
    sub := new IStream(stream.buf, stream.state, size);
    SliceTake(stream.buf, stream.state, stream.bytesLeft, size);
    stream.bytesLeft := stream.bytesLeft - size;
  }

  /** pb_close_string_substream: skips what is left of it. */
  method CloseSubstream(stream: IStream, sub: IStream) returns (ok: bool)
    requires sub.Valid() && stream != sub && stream.buf == sub.buf
    requires sub.state + sub.bytesLeft + stream.bytesLeft <= |stream.buf|
    modifies stream, sub
    ensures ok && stream.Valid()
    ensures stream.state == old(sub.state) + old(sub.bytesLeft) && stream.bytesLeft == old(stream.bytesLeft)
  {
    if sub.bytesLeft > 0 {
      var skipped;
      ok, skipped := sub.Read(sub.bytesLeft);
      if !ok {
        return;
      }
    }
    stream.state := sub.state;
    ok := true;
  }

  // ---------- Values ----------

  lemma DefaultShaped(f: Field)
    requires ValidField(f)
    ensures ShapedValue(f.ltype, DefaultValue(f)) && ShapedSlot(f, DefaultSlot(f))
    decreases f, 0
  {
    if f.ltype.SUBMESSAGE? {
      DefaultsShaped(f.ltype.schema);
    }
  }

  lemma DefaultsShaped(schema: Schema)
    requires ValidSchema(schema)
    ensures Shaped(schema, Defaults(schema))
    decreases schema, 1
  {
    forall i | 0 <= i < |schema.fields| ensures ShapedSlot(schema.fields[i], Defaults(schema)[i]) {
      assert ValidField(schema.fields[i]);
      DefaultShaped(schema.fields[i]);
    }
  }

  ghost predicate ItemNext(t: LType, item: Item, left: seq<Byte>) {
    ValidItem(t, item) && ItemBytes(t, item) <= left && |left| < TWO32
  }

  lemma SubmessageNext(schema: Schema, tokens: seq<Token>, left: seq<Byte>)
    requires ItemNext(SUBMESSAGE(schema), Sub(tokens), left)
    ensures ValidTokens(schema, tokens) && |TokensBytes(schema, tokens)| < TWO32
    ensures ItemBytes(SUBMESSAGE(schema), Sub(tokens)) == Delimited(TokensBytes(schema, tokens)) <= left
  {
  }

  /** pb_dec_submessage, into a struct that is there already. */
  method DecSubmessage(stream: IStream, schema: Schema, slots: seq<Slot>, ghost tokens: seq<Token>)
    returns (ok: bool, slots': seq<Slot>)
    requires stream.Valid() && ValidSchema(schema) && Shaped(schema, slots)
    modifies stream
    ensures stream.Valid() && Shaped(schema, slots') && (ok ==> SameEnd(stream))
    ensures ItemNext(SUBMESSAGE(schema), Sub(tokens), old(stream.Left())) ==>
      match Decoded(schema, tokens, slots)
      case None => !ok
      case Some(w) => ok && slots' == w && Advanced(stream, |ItemBytes(SUBMESSAGE(schema), Sub(tokens))|)
    decreases schema, 7
  {
    ghost var next := ItemNext(SUBMESSAGE(schema), Sub(tokens), stream.Left());
    ghost var body := [];
    if next {
      SubmessageNext(schema, tokens, stream.Left());
      body := TokensBytes(schema, tokens);
    }
    var sub;
    ok, sub := MakeSubstream(stream, body);
    if !ok {
      return false, slots;
    }
    var status;
    status, slots' := DecodeNoinit(sub, schema, slots, tokens);
    if status {
      ok := CloseSubstream(stream, sub);
    }
    ok := status;
  }

  /** A field's decoder, into memory that holds `current`; elements of arrays are initialised first. */
  method DecItem(stream: IStream, f: Field, current: Value, ghost item: Item) returns (ok: bool, v: Value)
    requires stream.Valid() && ValidField(f) && ShapedValue(f.ltype, current)
    modifies stream
    ensures stream.Valid() && ShapedValue(f.ltype, v) && (ok ==> SameEnd(stream))
    ensures ItemNext(f.ltype, item, old(stream.Left())) ==>
      match ItemValue(f.ltype, item, if f.htype.REPEATED? then DefaultValue(f) else current)
      case None => !ok
      case Some(w) => ok && v == w && Advanced(stream, |ItemBytes(f.ltype, item)|)
    decreases f, 1
  {
    if f.ltype.SUBMESSAGE? {
      var slots := current.slots;
      if f.htype.REPEATED? {
        DefaultShaped(f);
        slots := Defaults(f.ltype.schema);
      }
      ok, slots := DecSubmessage(stream, f.ltype.schema, slots, if item.Sub? then item.tokens else []);
      v := Msg(slots);
    } else {
      ok, v := DecScalar(stream, f.ltype, if item.Scalar? then item.v else Int(0));
    }
  }

  // ---------- Fields ----------

  /** Token `t` of field `i` is next, behind its tag. */
  ghost predicate PayloadNext(schema: Schema, t: Token, i: nat, wireType: nat, left: seq<Byte>) {
    && ValidToken(schema, t) && !t.Unknown? && t.field == i && wireType == TokenWireType(schema, t)
    && PayloadBytes(schema, t) <= left && |left| < TWO32
  }

  ghost predicate FieldReady(stream: IStream, schema: Schema, i: nat, slots: seq<Slot>)
    reads stream
  {
    stream.Valid() && i < |schema.fields| && ValidField(schema.fields[i]) && Shaped(schema, slots)
  }

  /** These elements of `t` are `left`. */
  ghost predicate ElementsAre(t: LType, values: seq<Value>, left: seq<Byte>) {
    (forall k :: 0 <= k < |values| ==> Typed(t, values[k])) && left == ScalarsBytes(t, values)
  }

  lemma NextElement(t: LType, values: seq<Value>, left: seq<Byte>)
    requires ValidLType(t) && IsPackable(t) && ElementsAre(t, values, left) && left != []
    ensures values != [] && ScalarNext(t, values[0], left)
    ensures ElementsAre(t, values[1..], left[|ScalarBytes(t, values[0])|..])
  {
    assert values != [];
    assert left == ScalarBytes(t, values[0]) + ScalarsBytes(t, values[1..]);
  }

  /** The loop over a packed array: stops at the end of the bytes or of the storage. */
  method DecPacked(sub: IStream, t: LType, items: seq<Value>, arraySize: nat, ghost values: seq<Value>)
    returns (ok: bool, items': seq<Value>)
    requires sub.Valid() && ValidLType(t) && IsPackable(t)
    requires forall k :: 0 <= k < |items| ==> ShapedValue(t, items[k])
    modifies sub
    ensures sub.Valid() && (ok ==> SameEnd(sub))
    ensures forall k :: 0 <= k < |items'| ==> ShapedValue(t, items'[k])
    ensures ElementsAre(t, values, old(sub.Left())) ==>
      && ok
      && if values == [] || |items| + |values| <= arraySize then items' == items + values && sub.bytesLeft == 0
         else sub.bytesLeft > 0
  {
    items' := items;
    ok := true;
    ghost var expected, rest := ElementsAre(t, values, sub.Left()), values;
    while sub.bytesLeft > 0 && |items'| < arraySize
      invariant sub.Valid() && SameEnd(sub) && ok
      invariant forall k :: 0 <= k < |items'| ==> ShapedValue(t, items'[k])
      invariant |items'| <= arraySize || items' == items
      invariant expected ==> ElementsAre(t, rest, sub.Left()) && items' + rest == items + values
      decreases arraySize - |items'|
    {
      if expected { NextElement(t, rest, sub.Left()); }
      var v;
      ok, v := DecScalar(sub, t, if expected then rest[0] else Int(0));
      if !ok {
        return;
      }
      if expected {
        assert items' + [v] + rest[1..] == items' + rest;
        rest := rest[1..];
      }
      items' := items' + [v];
    }
    if expected && rest != [] { ScalarsNonempty(t, rest); }
  }

  lemma ScalarsNonempty(t: LType, vs: seq<Value>)
    requires ValidLType(t) && IsPackable(t) && vs != [] && forall k :: 0 <= k < |vs| ==> Typed(t, vs[k])
    ensures |ScalarsBytes(t, vs)| > 0
  {
    assert |ScalarBytes(t, vs[0])| > 0;
  }

  /** decode_static_field, repeated: a packed array, or one more element. */
  method DecodeRepeated(stream: IStream, wireType: nat, schema: Schema, i: nat, slots: seq<Slot>, ghost t: Token)
    returns (ok: bool, slots': seq<Slot>)
    requires FieldReady(stream, schema, i, slots) && schema.fields[i].htype.REPEATED?
    modifies stream
    ensures stream.Valid() && Shaped(schema, slots') && (ok ==> SameEnd(stream))
    ensures PayloadNext(schema, t, i, wireType, old(stream.Left())) ==>
      match ApplyToken(schema, t, slots)
      case None => !ok
      case Some(w) => ok && slots' == w && Advanced(stream, |PayloadBytes(schema, t)|)
    decreases schema, 0
  {
    var f := schema.fields[i];
    assert ShapedSlot(f, slots[i]);
    var items := slots[i].items;
    slots' := slots;
    if wireType == 2 && IsPackable(f.ltype) {
      ok, slots' := DecodePackedField(stream, schema, i, slots, t);
    } else {
      if |items| >= f.htype.arraySize {
        return false, slots;
      }
      var v;
      DefaultShaped(f);
      ok, v := DecItem(stream, f, DefaultValue(f), if t.Single? then t.item else Scalar(Int(0)));
      slots' := slots[i := Many(items + [v])];
    }
  }

  /** A packed array on the wire, and what it does. */
  lemma PackedMeaning(schema: Schema, t: Token, i: nat, slots: seq<Slot>, left: seq<Byte>)
    requires PayloadNext(schema, t, i, 2, left) && |slots| == |schema.fields| && slots[i].Many?
    requires schema.fields[i].htype.REPEATED? && IsPackable(schema.fields[i].ltype)
    ensures t.Packed? && (forall k :: 0 <= k < |t.values| ==> Typed(schema.fields[i].ltype, t.values[k]))
    ensures PayloadBytes(schema, t) == Delimited(ScalarsBytes(schema.fields[i].ltype, t.values))
    ensures |ScalarsBytes(schema.fields[i].ltype, t.values)| < TWO32
    ensures ApplyToken(schema, t, slots) ==
      if t.values != [] && |slots[i].items| + |t.values| > schema.fields[i].htype.arraySize then None
      else Some(slots[i := Many(slots[i].items + t.values)])
  {
  }

  lemma ArrayShaped(schema: Schema, slots: seq<Slot>, i: nat, items: seq<Value>)
    requires Shaped(schema, slots) && i < |slots| && schema.fields[i].htype.REPEATED?
    requires forall k :: 0 <= k < |items| ==> ShapedValue(schema.fields[i].ltype, items[k])
    ensures Shaped(schema, slots[i := Many(items)])
  {
    assert ShapedSlot(schema.fields[i], Many(items));
    forall j | 0 <= j < |slots| ensures ShapedSlot(schema.fields[j], slots[i := Many(items)][j]) {
      assert ShapedSlot(schema.fields[j], slots[j]);
    }
  }

  /** The packed branch of decode_static_field. */
  method DecodePackedField(stream: IStream, schema: Schema, i: nat, slots: seq<Slot>, ghost t: Token)
    returns (ok: bool, slots': seq<Slot>)
    requires FieldReady(stream, schema, i, slots) && schema.fields[i].htype.REPEATED?
      && IsPackable(schema.fields[i].ltype)
    modifies stream
    ensures stream.Valid() && Shaped(schema, slots') && (ok ==> SameEnd(stream))
    ensures PayloadNext(schema, t, i, 2, old(stream.Left())) ==>
      match ApplyToken(schema, t, slots)
      case None => !ok
      case Some(w) => ok && slots' == w && Advanced(stream, |PayloadBytes(schema, t)|)
  {
    assert ShapedSlot(schema.fields[i], slots[i]);
    ghost var next := PayloadNext(schema, t, i, 2, stream.Left());
    if next { PackedMeaning(schema, t, i, slots, stream.Left()); }
    var items;
    ok, items := DecodePackedItems(stream, schema.fields[i], slots[i].items, if next then t.values else []);
    ArrayShaped(schema, slots, i, items);
    slots' := slots[i := Many(items)];
  }

  method DecodePackedItems(stream: IStream, f: Field, items: seq<Value>, ghost values: seq<Value>)
    returns (ok: bool, items': seq<Value>)
    requires stream.Valid() && ValidField(f) && f.htype.REPEATED? && IsPackable(f.ltype)
    requires forall k :: 0 <= k < |items| ==> ShapedValue(f.ltype, items[k])
    modifies stream
    ensures stream.Valid() && (ok ==> SameEnd(stream))
    ensures forall k :: 0 <= k < |items'| ==> ShapedValue(f.ltype, items'[k])
    ensures PackedNext(f.ltype, values, old(stream.Left())) ==>
      if values != [] && |items| + |values| > f.htype.arraySize then !ok
      else ok && items' == items + values && Advanced(stream, |Delimited(ScalarsBytes(f.ltype, values))|)
  {
    ghost var body := if PackedNext(f.ltype, values, stream.Left()) then ScalarsBytes(f.ltype, values) else [];
    var sub;
    items' := items;
    ok, sub := MakeSubstream(stream, body);
    if !ok {
      return;
    }
    var status;
    status, items' := DecPacked(sub, f.ltype, items, f.htype.arraySize, values);
    if sub.bytesLeft != 0 {
      return false, items';
    }
    if status {
      ok := CloseSubstream(stream, sub);
    }
    ok := status;
  }

  ghost predicate PackedNext(t: LType, values: seq<Value>, left: seq<Byte>) {
    && (forall k :: 0 <= k < |values| ==> Typed(t, values[k]))
    && |ScalarsBytes(t, values)| < TWO32 && Delimited(ScalarsBytes(t, values)) <= left
  }

  /** decode_static_field */
  method DecodeStaticField(stream: IStream, wireType: nat, schema: Schema, i: nat, slots: seq<Slot>, ghost t: Token)
    returns (ok: bool, slots': seq<Slot>)
    requires FieldReady(stream, schema, i, slots) && ValidSchema(schema)
    modifies stream
    ensures stream.Valid() && Shaped(schema, slots') && (ok ==> SameEnd(stream))
    ensures PayloadNext(schema, t, i, wireType, old(stream.Left())) ==>
      match ApplyToken(schema, t, slots)
      case None => !ok
      case Some(w) => ok && slots' == w && Advanced(stream, |PayloadBytes(schema, t)|)
    decreases schema, 1
  {
    var f := schema.fields[i];
    if f.htype.REPEATED? {
      ok, slots' := DecodeRepeated(stream, wireType, schema, i, slots, t);
      return;
    }
    assert ShapedSlot(f, slots[i]);
    var current := slots[i].value;
    slots' := slots;
    if f.htype.ONEOF? {
      if !slots[i].has {
        DefaultShaped(f);
        current := DefaultValue(f);
      }
      slots' := ClearUnion(schema, slots, i);
      ClearedShaped(schema, slots, i);
    }
    var v;
    ok, v := DecItem(stream, f, current, if t.Single? then t.item else Scalar(Int(0)));
    slots' := slots'[i := One(true, v)];
  }

  lemma ClearedShaped(schema: Schema, slots: seq<Slot>, i: nat)
    requires ValidSchema(schema) && Shaped(schema, slots) && i < |slots|
    ensures Shaped(schema, ClearUnion(schema, slots, i))
  {
    DefaultsShaped(schema);
    forall j | 0 <= j < |slots| ensures ShapedSlot(schema.fields[j], ClearUnion(schema, slots, i)[j]) {
      assert ShapedSlot(schema.fields[j], slots[j]) && ShapedSlot(schema.fields[j], Defaults(schema)[j]);
    }
  }

  // ---------- Messages ----------

  ghost predicate TokenNext(schema: Schema, t: Token, left: seq<Byte>) {
    ValidToken(schema, t) && TokenBytes(schema, t) <= left && |left| < TWO32
  }

  /** The body of pb_decode_noinit's loop: one field, known or not. */
  method DecodeNext(stream: IStream, schema: Schema, iter: Iter.FieldIter, words: array<Iter.Word>, slots: seq<Slot>,
                    ghost seen: set<nat>, ghost t: Token)
    returns (ok: bool, eof: bool, slots': seq<Slot>, ghost seen': set<nat>)
    requires stream.Valid() && ValidSchema(schema) && Shaped(schema, slots)
    requires iter.Valid() && iter.fields == Describe(schema) && Iter.Recorded(iter.fields, words[..], seen)
    modifies stream, iter, words
    ensures stream.Valid() && Shaped(schema, slots') && iter.Valid()
    ensures Iter.Recorded(iter.fields, words[..], seen')
    ensures ok ==> SameEnd(stream) && stream.bytesLeft < old(stream.bytesLeft)
    ensures !ok && eof ==> SameEnd(stream)
    ensures TokenNext(schema, t, old(stream.Left())) ==>
      match ApplyToken(schema, t, slots)
      case None => !ok && !eof
      case Some(w) => ok && slots' == w && seen' == seen + SeenField(t) && Advanced(stream, |TokenBytes(schema, t)|)
    decreases schema, 4
  {
    slots', seen' := slots, seen;
    ghost var next := TokenNext(schema, t, stream.Left());
    ghost var tag0 := if next then TokenTag(schema, t) else 0;
    ghost var wireType0 := if next then TokenWireType(schema, t) else 0;
    if next {
      if !t.Unknown? { FieldIsValid(schema, t.field); }
      PrefixSplit(stream.Left(), TagBytes(tag0, wireType0), PayloadBytes(schema, t));
    }
    var wireType, tag;
    ok, wireType, tag, eof := DecodeTag(stream, tag0, wireType0);
    if !ok {
      return;
    }
    eof := false;
    ok, slots', seen' := DecodeTagged(stream, wireType, tag, schema, iter, words, slots, seen, t);
  }

  /** Token `t` is next, behind its tag. */
  ghost predicate TaggedNext(schema: Schema, t: Token, wireType: nat, tag: nat, left: seq<Byte>) {
    && ValidToken(schema, t) && tag == TokenTag(schema, t) && wireType == TokenWireType(schema, t)
    && PayloadBytes(schema, t) <= left && |left| < TWO32
  }

  /** What follows a tag. */
  /** A field that was found: marked, and decoded. */
  method DecodeKnown(stream: IStream, wireType: nat, ghost tag: nat, schema: Schema, iter: Iter.FieldIter,
                     words: array<Iter.Word>, slots: seq<Slot>, ghost seen: set<nat>, ghost t: Token)
    returns (ok: bool, slots': seq<Slot>, ghost seen': set<nat>)
    requires stream.Valid() && ValidSchema(schema) && Shaped(schema, slots)
    requires iter.Valid() && iter.fields == Describe(schema) && Iter.Recorded(iter.fields, words[..], seen)
    requires schema.fields != []
    requires TaggedNext(schema, t, wireType, tag, stream.Left()) ==> !t.Unknown? && iter.pos == t.field
    modifies stream, words
    ensures stream.Valid() && Shaped(schema, slots')
    ensures Iter.Recorded(iter.fields, words[..], seen')
    ensures ok ==> SameEnd(stream)
    ensures TaggedNext(schema, t, wireType, tag, old(stream.Left())) ==>
      match ApplyToken(schema, t, slots)
      case None => !ok
      case Some(w) => ok && slots' == w && seen' == seen + SeenField(t) && Advanced(stream, |PayloadBytes(schema, t)|)
    decreases schema, 2
  {
    Iter.MarkSeen(iter, words, seen);
    seen' := seen + {iter.pos};
    FieldIsValid(schema, iter.pos);
    ok, slots' := DecodeStaticField(stream, wireType, schema, iter.pos, slots, t);
  }

  method DecodeTagged(stream: IStream, wireType: nat, tag: nat, schema: Schema, iter: Iter.FieldIter,
                      words: array<Iter.Word>, slots: seq<Slot>, ghost seen: set<nat>, ghost t: Token)
    returns (ok: bool, slots': seq<Slot>, ghost seen': set<nat>)
    requires stream.Valid() && ValidSchema(schema) && Shaped(schema, slots)
    requires iter.Valid() && iter.fields == Describe(schema) && Iter.Recorded(iter.fields, words[..], seen)
    modifies stream, iter, words
    ensures stream.Valid() && Shaped(schema, slots') && iter.Valid()
    ensures Iter.Recorded(iter.fields, words[..], seen')
    ensures ok ==> SameEnd(stream)
    ensures TaggedNext(schema, t, wireType, tag, old(stream.Left())) ==>
      match ApplyToken(schema, t, slots)
      case None => !ok
      case Some(w) => ok && slots' == w && seen' == seen + SeenField(t) && Advanced(stream, |PayloadBytes(schema, t)|)
    decreases schema, 3
  {
    slots', seen' := slots, seen;
    ghost var next := TaggedNext(schema, t, wireType, tag, stream.Left());
    var found := iter.Find(tag);
    if next { FoundToken(schema, t, iter.pos, found); }
    if !found {
      ok := SkipField(stream, wireType, if t.Unknown? then t.raw else RawVarint(0));
    } else if iter.fields == [] {
      var dummy;
      ok, dummy := DecScalar(stream, BOOL, Int(0));  // the terminator's type is that of a required bool
    } else {
      ok, slots', seen' := DecodeKnown(stream, wireType, tag, schema, iter, words, slots, seen, t);
    }
  }

  /** What the iterator finds for the tag of a token. */
  lemma FieldIsValid(schema: Schema, i: nat)
    requires ValidSchema(schema) && i < |schema.fields|
    ensures ValidField(schema.fields[i])
  {
  }

  lemma FoundToken(schema: Schema, t: Token, pos: nat, found: bool)
    requires ValidSchema(schema) && ValidToken(schema, t)
    requires var d, tag := Describe(schema), TokenTag(schema, t);
      && (found <==> (d == [] && tag == 0) || exists i :: 0 <= i < |d| && Iter.Matches(d[i], tag))
      && (found && d != [] ==> pos < |d| && Iter.Matches(d[pos], tag))
    ensures if t.Unknown? then !found else found && schema.fields != [] && pos == t.field
  {
    var d, tag := Describe(schema), TokenTag(schema, t);
    assert forall i :: 0 <= i < |d| ==> d[i].tag == schema.fields[i].tag && !d[i].extension;
    if !t.Unknown? {
      assert Iter.Matches(d[t.field], tag);
    }
  }

  /** One turn of the loop, on the next of the tokens that are expected. */
  method DecodeStep(stream: IStream, schema: Schema, iter: Iter.FieldIter, words: array<Iter.Word>, slots: seq<Slot>,
                    ghost seen: set<nat>, ghost expected: bool, ghost ts: seq<Token>, ghost dest: seq<Slot>,
                    ghost rest: seq<Token>)
    returns (ok: bool, eof: bool, slots': seq<Slot>, ghost seen': set<nat>, ghost rest': seq<Token>)
    requires stream.Valid() && ValidSchema(schema) && Shaped(schema, slots) && stream.bytesLeft > 0
    requires iter.Valid() && iter.fields == Describe(schema) && Iter.Recorded(iter.fields, words[..], seen)
    requires expected ==> Remaining(schema, ts, dest, stream.Left(), rest, slots, seen)
    modifies stream, iter, words
    ensures stream.Valid() && Shaped(schema, slots') && iter.Valid()
    ensures Iter.Recorded(iter.fields, words[..], seen')
    ensures ok ==> SameEnd(stream) && stream.bytesLeft < old(stream.bytesLeft)
    ensures !ok && eof ==> SameEnd(stream) && !expected
    ensures expected && ok ==> Remaining(schema, ts, dest, stream.Left(), rest', slots', seen')
    ensures expected && !ok ==> ApplyAll(schema, ts, dest) == None
    decreases schema, 5
  {
    ghost var t := if rest != [] then rest[0] else Unknown(0, RawVarint(0));
    if expected { RemainingNext(schema, ts, dest, stream.Left(), rest, slots, seen); }
    ok, eof, slots', seen' := DecodeNext(stream, schema, iter, words, slots, seen, t);
    rest' := if rest != [] then rest[1..] else rest;
  }

  /** pb_decode_noinit: whatever the input, the struct keeps its shape; on the bytes of tokens, in any
      order and number, exactly what they mean, failing exactly when they do. */
  method DecodeNoinit(stream: IStream, schema: Schema, dest: seq<Slot>, ghost ts: seq<Token>)
    returns (ok: bool, slots: seq<Slot>)
    requires stream.Valid() && ValidSchema(schema) && Shaped(schema, dest)
    modifies stream
    ensures stream.Valid() && Shaped(schema, slots) && (ok ==> SameEnd(stream))
    ensures
      ValidTokens(schema, ts) && old(stream.Left()) == TokensBytes(schema, ts) && old(stream.bytesLeft) < TWO32 ==>
      match Decoded(schema, ts, dest)
      case None => !ok
      case Some(w) => ok && slots == w && stream.bytesLeft == 0
    decreases schema, 6
  {
    TagsPositive(schema);
    var words := new Iter.Word[2](_ => Iter.LowBits(0));
    var iter := new Iter.FieldIter(Describe(schema), 1);
    slots := dest;
    ghost var seen, rest := {}, ts;
    ghost var expected := ValidTokens(schema, ts) && stream.Left() == TokensBytes(schema, ts)
        && stream.bytesLeft < TWO32;
    while stream.bytesLeft > 0
      invariant fresh(words) && fresh(iter) && iter.Valid() && iter.fields == Describe(schema)
      invariant stream.Valid() && SameEnd(stream) && Shaped(schema, slots)
      invariant Iter.Recorded(iter.fields, words[..], seen)
      invariant expected ==> Remaining(schema, ts, dest, stream.Left(), rest, slots, seen)
      decreases stream.bytesLeft
    {
      var eof;
      ok, eof, slots, seen, rest := DecodeStep(stream, schema, iter, words, slots, seen, expected, ts, dest, rest);
      if !ok {
        if eof {
          break;
        }
        return;
      }
    }
    if expected { RemainingDone(schema, ts, dest, rest, slots, seen); }
    ok := Iter.CheckRequired(iter, words, seen);
  }

  /** The tokens `rest` are still to come. */
  ghost predicate Remaining(schema: Schema, ts: seq<Token>, dest: seq<Slot>, left: seq<Byte>, rest: seq<Token>,
                            slots: seq<Slot>, seen: set<nat>) {
    && |dest| == |slots| == |schema.fields|
    && ValidTokens(schema, rest) && left == TokensBytes(schema, rest) && |left| < TWO32
    && ApplyAll(schema, rest, slots) == ApplyAll(schema, ts, dest)
    && seen + SeenFields(rest) == SeenFields(ts)
  }

  lemma RemainingNext(schema: Schema, ts: seq<Token>, dest: seq<Slot>, left: seq<Byte>, rest: seq<Token>,
                      slots: seq<Slot>, seen: set<nat>)
    requires Remaining(schema, ts, dest, left, rest, slots, seen) && left != []
    ensures rest != [] && TokenNext(schema, rest[0], left)
    ensures match ApplyToken(schema, rest[0], slots)
      case None => ApplyAll(schema, ts, dest) == None
      case Some(w) => Remaining(schema, ts, dest, left[|TokenBytes(schema, rest[0])|..], rest[1..], w,
        seen + SeenField(rest[0]))
  {
    assert rest != [];
    assert left == TokenBytes(schema, rest[0]) + TokensBytes(schema, rest[1..]);
    assert seen + SeenField(rest[0]) + SeenFields(rest[1..]) == seen + SeenFields(rest);
  }

  lemma NoBytesNoTokens(schema: Schema, ts: seq<Token>)
    requires ValidTokens(schema, ts)
    ensures TokensBytes(schema, ts) == [] <==> ts == []
  {
    if ts != [] {
      assert TokensBytes(schema, ts) == TokenBytes(schema, ts[0]) + TokensBytes(schema, ts[1..]);
      assert |TokenBytes(schema, ts[0])| > 0;
    }
  }

  lemma RemainingDone(schema: Schema, ts: seq<Token>, dest: seq<Slot>, rest: seq<Token>, slots: seq<Slot>,
      seen: set<nat>)
    requires Remaining(schema, ts, dest, [], rest, slots, seen)
    ensures ApplyAll(schema, ts, dest) == Some(slots) && SeenFields(ts) == seen
  {
    NoBytesNoTokens(schema, rest);
    assert seen + {} == seen;
  }

  /** pb_decode */
  method Decode(stream: IStream, schema: Schema, ghost ts: seq<Token>) returns (ok: bool, slots: seq<Slot>)
    requires stream.Valid() && ValidSchema(schema)
    modifies stream
    ensures stream.Valid() && Shaped(schema, slots) && (ok ==> SameEnd(stream))
    ensures
      ValidTokens(schema, ts) && old(stream.Left()) == TokensBytes(schema, ts) && old(stream.bytesLeft) < TWO32 ==>
      match Decoded(schema, ts, Defaults(schema))
      case None => !ok
      case Some(w) => ok && slots == w && stream.bytesLeft == 0
  {
    DefaultsShaped(schema);
    ok, slots := DecodeNoinit(stream, schema, Defaults(schema), ts);
  }
}
