/** nanopb's encoder: what it writes, when it succeeds, and that counting agrees with writing. */
module PbEncode {
  import opened Bytes
  import opened PbStream
  import opened PbVarint
  import opened PbMessage
  import opened PbMeaning
  import Iter = PbFieldIter

  // ---------- The bytes that are due ----------

  ghost function ValueBytes(t: LType, v: Value, pack: bool): seq<Byte>
    requires ValidLType(t) && ValidValue(t, v) && EncodableValue(t, v)
  {
    ItemValid(t, v, pack);
    ItemBytes(t, ItemOf(t, v, pack))
  }

  /** A field that may be written: valid, and within its storage. */
  ghost predicate ReadyField(schema: Schema, i: nat, s: Slot) {
    i < |schema.fields| && ValidField(schema.fields[i]) && ValidSlot(schema.fields[i], s)
      && EncodableSlot(schema.fields[i], s)
  }

  lemma FieldTokensValid(schema: Schema, i: nat, s: Slot, pack: bool)
    requires ReadyField(schema, i, s)
    ensures ValidTokens(schema, FieldTokens(schema.fields[i], i, s, pack))
  {
    var f := schema.fields[i];
    if s.Many? {
      if pack && IsPackable(f.ltype) {
        assert forall k :: 0 <= k < |s.items| ==> ValidValue(f.ltype, s.items[k]);
      } else {
        ArrayValid(schema, i, s.items, pack);
      }
    } else if Present(f, s) {
      ItemValid(f.ltype, s.value, pack);
    }
  }

  ghost function FieldBytes(schema: Schema, i: nat, s: Slot, pack: bool): seq<Byte>
    requires ReadyField(schema, i, s)
  {
    FieldTokensValid(schema, i, s, pack);
    TokensBytes(schema, FieldTokens(schema.fields[i], i, s, pack))
  }

  ghost predicate ReadyMessage(schema: Schema, slots: seq<Slot>) {
    ValidSchema(schema) && ValidMessage(schema, slots) && Encodable(schema, slots)
  }

  ghost function FieldsBytes(schema: Schema, slots: seq<Slot>, n: nat, pack: bool): seq<Byte>
    requires ReadyMessage(schema, slots) && n <= |slots|
  {
    FieldsValid(schema, slots, n, pack);
    TokensBytes(schema, FieldsTokens(schema, slots, n, pack))
  }

  /** The message on the wire. */
  ghost function MessageBytes(schema: Schema, slots: seq<Slot>, pack: bool): seq<Byte>
    requires ReadyMessage(schema, slots)
  {
    FieldsBytes(schema, slots, |slots|, pack)
  }

  /** No submessage takes more bytes than a size_t can count. */
  ghost predicate SmallValue(t: LType, v: Value, pack: bool)
    requires ValidLType(t) && ValidValue(t, v)
    decreases t, 0
  {
    t.SUBMESSAGE? ==> SmallMessage(t.schema, v.slots, pack)
  }

  ghost predicate SmallSlot(f: Field, s: Slot, pack: bool)
    requires ValidField(f) && ValidSlot(f, s)
    decreases f, 0
  {
    if s.Many? then forall k :: 0 <= k < |s.items| ==> SmallValue(f.ltype, s.items[k], pack)
    else SmallValue(f.ltype, s.value, pack)
  }

  ghost predicate SmallMessage(schema: Schema, slots: seq<Slot>, pack: bool)
    requires ValidSchema(schema) && ValidMessage(schema, slots)
    decreases schema, 0
  {
    && (Encodable(schema, slots) ==> |MessageBytes(schema, slots, pack)| < TWO64)
    && forall i :: 0 <= i < |slots| ==> SmallSlot(schema.fields[i], slots[i], pack)
  }

  lemma FieldsBytesStep(schema: Schema, slots: seq<Slot>, n: nat, pack: bool)
    requires ReadyMessage(schema, slots) && n < |slots|
    ensures ReadyField(schema, n, slots[n])
    ensures FieldsBytes(schema, slots, n + 1, pack) ==
      FieldsBytes(schema, slots, n, pack) + FieldBytes(schema, n, slots[n], pack)
  {
    assert ValidField(schema.fields[n]) && ValidSlot(schema.fields[n], slots[n])
      && EncodableSlot(schema.fields[n], slots[n]);
    FieldsValid(schema, slots, n, pack);
    FieldTokensValid(schema, n, slots[n], pack);
    BytesAppend(schema, FieldsTokens(schema, slots, n, pack), FieldTokens(schema.fields[n], n, slots[n], pack));
  }

  lemma {:induction false} FieldsBytesGrow(schema: Schema, slots: seq<Slot>, n: nat, m: nat, pack: bool)
    requires ReadyMessage(schema, slots) && n <= m <= |slots|
    ensures |FieldsBytes(schema, slots, n, pack)| <= |FieldsBytes(schema, slots, m, pack)|
    decreases m
  {
    if n < m {
      FieldsBytesGrow(schema, slots, n, m - 1, pack);
      FieldsBytesStep(schema, slots, m - 1, pack);
    }
  }

  lemma OneTokenBytes(schema: Schema, t: Token)
    requires ValidToken(schema, t)
    ensures ValidTokens(schema, [t]) && TokensBytes(schema, [t]) == TokenBytes(schema, t)
  {
    assert TokensBytes(schema, [t]) == TokenBytes(schema, t) + [];
  }

  lemma ValueBytesOf(t: LType, v: Value, pack: bool)
    requires ValidLType(t) && ValidValue(t, v) && EncodableValue(t, v)
    ensures ValueBytes(t, v, pack) ==
      if t.SUBMESSAGE? then Delimited(MessageBytes(t.schema, v.slots, pack)) else ScalarBytes(t, v)
  {
    ItemValid(t, v, pack);
    if t.SUBMESSAGE? {
      var ts := TokensOf(t.schema, v.slots, pack);
      assert ts == FieldsTokens(t.schema, v.slots, |v.slots|, pack);
      assert ItemOf(t, v, pack) == Sub(ts);
      assert ItemBytes(t, Sub(ts)) == Delimited(TokensBytes(t.schema, ts));
    }
  }

  /** The bytes of one value with its tag. */
  ghost function TaggedBytes(f: Field, v: Value, pack: bool): seq<Byte>
    requires ValidField(f) && ValidValue(f.ltype, v) && EncodableValue(f.ltype, v)
  {
    TagBytes(f.tag, WireType(f.ltype)) + ValueBytes(f.ltype, v, pack)
  }

  lemma SingleBytes(schema: Schema, i: nat, v: Value, pack: bool)
    requires i < |schema.fields| && ValidField(schema.fields[i])
    requires ValidValue(schema.fields[i].ltype, v) && EncodableValue(schema.fields[i].ltype, v)
    ensures var ts := [Single(i, ItemOf(schema.fields[i].ltype, v, pack))];
      ValidTokens(schema, ts) && TokensBytes(schema, ts) == TaggedBytes(schema.fields[i], v, pack)
  {
    var f := schema.fields[i];
    var t := Single(i, ItemOf(f.ltype, v, pack));
    ItemValid(f.ltype, v, pack);
    OneTokenBytes(schema, t);
    assert PayloadBytes(schema, t) == ValueBytes(f.ltype, v, pack);
  }

  lemma {:induction false} ScalarsSnoc(t: LType, vs: seq<Value>, v: Value)
    requires Typed(t, v) && forall k :: 0 <= k < |vs| ==> Typed(t, vs[k])
    ensures ScalarsBytes(t, vs + [v]) == ScalarsBytes(t, vs) + ScalarBytes(t, v)
  {
    if vs == [] {
      assert ScalarsBytes(t, [v]) == ScalarBytes(t, v) + [];
    } else {
      assert (vs + [v])[1..] == vs[1..] + [v];
      ScalarsSnoc(t, vs[1..], v);
      Regroup(ScalarBytes(t, vs[0]), ScalarsBytes(t, vs[1..]), ScalarBytes(t, v));
    }
  }

  lemma {:induction false} FixedSize(t: LType, vs: seq<Value>)
    requires t.FIXED32? || t.FIXED64?
    requires forall k :: 0 <= k < |vs| ==> Typed(t, vs[k])
    ensures |ScalarsBytes(t, vs)| == (if t.FIXED32? then 4 else 8) * |vs|
  {
    if vs != [] {
      FixedSize(t, vs[1..]);
    }
  }

  // ---------- Values ----------

  /** pb_encode_tag */
  method EncodeTag(stream: OStream, wireType: nat, tag: nat) returns (ok: bool)
    requires stream.Valid() && tag < 0x2000_0000 && wireType < 8
    modifies stream
    ensures stream.Valid()
    ensures ok <==> old(stream.Room(|TagBytes(tag, wireType)|))
    ensures stream.Appended(old(stream.state), old(stream.bytesWritten), if ok then TagBytes(tag, wireType) else [])
  {
    ok := EncodeVarint(stream, tag * 8 + wireType);
  }

  /** pb_encode_string */
  method EncodeString(stream: OStream, b: seq<Byte>) returns (ok: bool)
    requires stream.Valid() && |b| < TWO64
    modifies stream
    ensures stream.Valid() && old(stream.state) <= stream.state
    ensures ok <==> old(stream.Room(|Delimited(b)|))
    ensures ok ==> stream.Appended(old(stream.state), old(stream.bytesWritten), Delimited(b))
  {
    ok := EncodeVarint(stream, |b|);
    if !ok {
      return;
    }
    ghost var before := old(stream.state);
    Regroup(before, VarintBytes(|b|), b);
    ok := stream.Write(b);
  }

  /** pb_enc_bool, pb_enc_varint and the other field encoders of scalars. */
  /** pb_enc_bool, pb_enc_varint, pb_enc_fixed */
  method EncNumber(stream: OStream, t: LType, v: Value) returns (ok: bool)
    requires stream.Valid() && ValidLType(t) && Typed(t, v)
    requires !t.BYTES? && !t.STRING? && !t.FIXED_LENGTH_BYTES?
    modifies stream
    ensures stream.Valid() && old(stream.state) <= stream.state
    ensures ok <==> Fits(t, v) && old(stream.Room(|ScalarBytes(t, v)|))
    ensures ok ==> stream.Appended(old(stream.state), old(stream.bytesWritten), ScalarBytes(t, v))
  {
    match t
    case BOOL => ok := EncodeVarint(stream, if v.i != 0 then 1 else 0);
    case VARINT(_) => ok := EncodeVarint(stream, ToUnsigned(v.i));
    case UVARINT(_) => ok := EncodeVarint(stream, v.i);
    case SVARINT(_) => ok := EncodeSVarint(stream, v.i);
    case FIXED32 => ok := stream.Write(EncodeFixed(v.i, 4));
    case FIXED64 => ok := stream.Write(EncodeFixed(v.i, 8));
  }

  /** pb_enc_bytes, pb_enc_string, pb_enc_fixed_length_bytes */
  method EncBlob(stream: OStream, t: LType, v: Value) returns (ok: bool)
    requires stream.Valid() && ValidLType(t) && Typed(t, v)
    requires t.BYTES? || t.STRING? || t.FIXED_LENGTH_BYTES?
    modifies stream
    ensures stream.Valid() && old(stream.state) <= stream.state
    ensures ok <==> Fits(t, v) && old(stream.Room(|ScalarBytes(t, v)|))
    ensures ok ==> stream.Appended(old(stream.state), old(stream.bytesWritten), ScalarBytes(t, v))
  {
    if t.BYTES? && |v.b| > t.max {
      return false;
    }
    ok := EncodeString(stream, v.b);
  }

  method EncScalar(stream: OStream, t: LType, v: Value) returns (ok: bool)
    requires stream.Valid() && ValidLType(t) && Typed(t, v)
    modifies stream
    ensures stream.Valid() && old(stream.state) <= stream.state
    ensures ok <==> Fits(t, v) && old(stream.Room(|ScalarBytes(t, v)|))
    ensures ok ==> stream.Appended(old(stream.state), old(stream.bytesWritten), ScalarBytes(t, v))
  {
    if t.BYTES? || t.STRING? || t.FIXED_LENGTH_BYTES? {
      ok := EncBlob(stream, t, v);
    } else {
      ok := EncNumber(stream, t, v);
    }
  }

  /** The entry of PB_ENCODERS for the field's type. */
  method EncValue(stream: OStream, t: LType, v: Value, pack: bool) returns (ok: bool)
    requires stream.Valid() && ValidLType(t) && ValidValue(t, v)
    requires SmallValue(t, v, pack)
    modifies stream
    ensures stream.Valid() && old(stream.state) <= stream.state
    ensures ok <==> EncodableValue(t, v) && old(stream.Room(|ValueBytes(t, v, pack)|))
    ensures ok ==> stream.Appended(old(stream.state), old(stream.bytesWritten), ValueBytes(t, v, pack))
    decreases t, 0
  {
    if EncodableValue(t, v) { ValueBytesOf(t, v, pack); }
    if t.SUBMESSAGE? {
      ok := EncodeSubmessage(stream, t.schema, v.slots, pack);
    } else {
      ok := EncScalar(stream, t, v);
    }
  }

  // ---------- Submessages ----------

  /** pb_encode_submessage: counts on a sizing stream, writes the length, then writes into exactly that room. */
  method EncodeSubmessage(stream: OStream, schema: Schema, slots: seq<Slot>, pack: bool) returns (ok: bool)
    requires stream.Valid() && ValidSchema(schema) && ValidMessage(schema, slots)
    requires SmallMessage(schema, slots, pack)
    modifies stream
    ensures stream.Valid() && old(stream.state) <= stream.state
    ensures ok <==> Encodable(schema, slots) && old(stream.Room(|Delimited(MessageBytes(schema, slots, pack))|))
    ensures ok ==> stream.Appended(old(stream.state), old(stream.bytesWritten),
      Delimited(MessageBytes(schema, slots, pack)))
    decreases schema, 6
  {
    var sizer := new OStream.Sizing();
    ok := Encode(sizer, schema, slots, pack);
    if !ok {
      return;
    }
    var size := sizer.bytesWritten;
    ghost var body := MessageBytes(schema, slots, pack);
    Regroup(stream.state, VarintBytes(size), body);
    ok := EncodeVarint(stream, size);
    if !ok {
      return;
    }
    if stream.sizing {
      ok := stream.Count(size);
      return;
    }
    if stream.bytesWritten + size > stream.maxSize {
      return false;
    }
    var substream := new OStream.Buffer(stream.state, size);
    ok := Encode(substream, schema, slots, pack);
    stream.bytesWritten := stream.bytesWritten + substream.bytesWritten;
    stream.state := substream.state;
    assert substream.bytesWritten == size;  // so "submsg size changed" cannot happen
  }

  // ---------- Arrays ----------

  /** The size of a packed array: fixed-size elements by multiplication, others on a sizing stream. */
  method PackedSize(t: LType, items: seq<Value>) returns (size: nat)
    requires ValidLType(t) && IsPackable(t) && forall k :: 0 <= k < |items| ==> Typed(t, items[k])
    ensures size == |ScalarsBytes(t, items)| <= 10 * |items|
  {
    ScalarsSize(t, items);
    if t.FIXED32? {
      FixedSize(t, items);
      size := 4 * |items|;
    } else if t.FIXED64? {
      FixedSize(t, items);
      size := 8 * |items|;
    } else {
      var sizer := new OStream.Sizing();
      var ok := EncScalars(sizer, t, items);
      size := sizer.bytesWritten;
    }
  }

  lemma {:induction false} ScalarsSize(t: LType, vs: seq<Value>)
    requires ValidLType(t) && IsPackable(t) && forall k :: 0 <= k < |vs| ==> Typed(t, vs[k])
    ensures |ScalarsBytes(t, vs)| <= 10 * |vs|
  {
    if vs != [] {
      ScalarsSize(t, vs[1..]);
      match t
      case BOOL => VarintSize64(vs[0].i);
      case VARINT(_) => VarintSize64(ToUnsigned(vs[0].i));
      case UVARINT(_) => VarintSize64(vs[0].i);
      case SVARINT(_) => VarintSize64(ZigZag(vs[0].i));
      case FIXED32 =>
      case FIXED64 =>
    }
  }

  lemma ScalarsStep(t: LType, items: seq<Value>, i: nat, s0: seq<Byte>)
    requires i < |items| && forall k :: 0 <= k < |items| ==> Typed(t, items[k])
    ensures ScalarsBytes(t, items[..i + 1]) == ScalarsBytes(t, items[..i]) + ScalarBytes(t, items[i])
    ensures s0 + ScalarsBytes(t, items[..i + 1]) == s0 + ScalarsBytes(t, items[..i]) + ScalarBytes(t, items[i])
    ensures |ScalarsBytes(t, items[..i + 1])| <= |ScalarsBytes(t, items)|
  {
    assert items[..i + 1] == items[..i] + [items[i]];
    ScalarsSnoc(t, items[..i], items[i]);
    Regroup(s0, ScalarsBytes(t, items[..i]), ScalarBytes(t, items[i]));
    ScalarsPrefix(t, items, i + 1);
  }

  method EncNextScalar(stream: OStream, t: LType, items: seq<Value>, i: nat, ghost s0: seq<Byte>, ghost w0: nat)
    returns (ok: bool)
    requires stream.Valid() && ValidLType(t) && IsPackable(t) && forall k :: 0 <= k < |items| ==> Typed(t, items[k])
    requires i < |items| && stream.Appended(s0, w0, ScalarsBytes(t, items[..i]))
    modifies stream
    ensures stream.Valid() && old(stream.state) <= stream.state
    ensures ok ==> stream.Appended(s0, w0, ScalarsBytes(t, items[..i + 1]))
    ensures !ok ==> !stream.sizing && w0 + |ScalarsBytes(t, items)| > stream.maxSize
  {
    ScalarsStep(t, items, i, s0);
    ok := EncScalar(stream, t, items[i]);
  }

  /** The loops over the elements of a packed array. */
  method EncScalars(stream: OStream, t: LType, items: seq<Value>) returns (ok: bool)
    requires stream.Valid() && ValidLType(t) && IsPackable(t) && forall k :: 0 <= k < |items| ==> Typed(t, items[k])
    modifies stream
    ensures stream.Valid() && old(stream.state) <= stream.state
    ensures ok <==> old(stream.Room(|ScalarsBytes(t, items)|))
    ensures ok ==> stream.Appended(old(stream.state), old(stream.bytesWritten), ScalarsBytes(t, items))
  {
    var i := 0;
    ghost var s0, w0 := stream.state, stream.bytesWritten;
    while i < |items|
      invariant i <= |items| && stream.Valid() && s0 <= stream.state
      invariant stream.Appended(s0, w0, ScalarsBytes(t, items[..i]))
    {
      ok := EncNextScalar(stream, t, items, i, s0, w0);
      if !ok {
        return;
      }
      i := i + 1;
    }
    assert items[..i] == items;
    ok := true;
  }

  lemma {:induction false} ScalarsPrefix(t: LType, vs: seq<Value>, k: nat)
    requires k <= |vs| && forall j :: 0 <= j < |vs| ==> Typed(t, vs[j])
    ensures |ScalarsBytes(t, vs[..k])| <= |ScalarsBytes(t, vs)|
    decreases |vs|
  {
    if k < |vs| {
      var n := |vs| - 1;
      ScalarsPrefix(t, vs[..n], k);
      assert vs[..n][..k] == vs[..k];
      assert vs == vs[..n] + [vs[n]];
      ScalarsSnoc(t, vs[..n], vs[n]);
    } else {
      assert vs[..k] == vs;
    }
  }

  /** A packed array on the wire, and behind what is there already. */
  lemma PackedBytes(schema: Schema, i: nat, items: seq<Value>, before: seq<Byte>)
    requires ReadyField(schema, i, Many(items)) && items != [] && IsPackable(schema.fields[i].ltype)
    ensures forall k :: 0 <= k < |items| ==> Typed(schema.fields[i].ltype, items[k])
    ensures var tag, body := TagBytes(schema.fields[i].tag, 2), ScalarsBytes(schema.fields[i].ltype, items);
      && FieldBytes(schema, i, Many(items), true) == tag + (VarintBytes(|body|) + body)
      && before + FieldBytes(schema, i, Many(items), true) == before + tag + VarintBytes(|body|) + body
  {
    var f := schema.fields[i];
    assert forall k :: 0 <= k < |items| ==> ValidValue(f.ltype, items[k]);
    var tag, body := TagBytes(f.tag, 2), ScalarsBytes(f.ltype, items);
    FieldTokensValid(schema, i, Many(items), true);
    OneTokenBytes(schema, Packed(i, items));
    Regroup(before, tag, VarintBytes(|body|) + body);
    Regroup(before + tag, VarintBytes(|body|), body);
  }

  /** The packed branch of encode_array. */
  method EncodePacked(stream: OStream, schema: Schema, i: nat, items: seq<Value>) returns (ok: bool)
    requires stream.Valid() && ReadyField(schema, i, Many(items)) && items != [] && IsPackable(schema.fields[i].ltype)
    modifies stream
    ensures stream.Valid() && old(stream.state) <= stream.state
    ensures ok <==> old(stream.Room(|FieldBytes(schema, i, Many(items), true)|))
    ensures ok ==> stream.Appended(old(stream.state), old(stream.bytesWritten),
      FieldBytes(schema, i, Many(items), true))
  {
    var f := schema.fields[i];
    assert forall k :: 0 <= k < |items| ==> ValidValue(f.ltype, items[k]);
    ghost var tag, body := TagBytes(f.tag, 2), ScalarsBytes(f.ltype, items);
    PackedBytes(schema, i, items, stream.state);
    ok := EncodeTag(stream, 2, f.tag);
    if !ok {
      return;
    }
    var size := PackedSize(f.ltype, items);
    ok := EncodeVarint(stream, size);
    if !ok {
      return;
    }
    if stream.sizing {
      ok := stream.Count(size);
      return;
    }
    ok := EncScalars(stream, f.ltype, items);
  }

  /** A tag and a value. */
  method EncodeTagAndValue(stream: OStream, f: Field, v: Value, pack: bool) returns (ok: bool)
    requires stream.Valid() && ValidField(f) && ValidValue(f.ltype, v) && SmallValue(f.ltype, v, pack)
    modifies stream
    ensures stream.Valid() && old(stream.state) <= stream.state
    ensures ok <==> EncodableValue(f.ltype, v) && old(stream.Room(|TaggedBytes(f, v, pack)|))
    ensures ok ==> stream.Appended(old(stream.state), old(stream.bytesWritten), TaggedBytes(f, v, pack))
    decreases f, 2
  {
    if EncodableValue(f.ltype, v) {
      Regroup(stream.state, TagBytes(f.tag, WireType(f.ltype)), ValueBytes(f.ltype, v, pack));
    }
    ok := EncodeTag(stream, WireType(f.ltype), f.tag);
    if !ok {
      return;
    }
    ok := EncValue(stream, f.ltype, v, pack);
  }

  /** The first `k` elements have become `done`. */
  ghost predicate ItemsWritten(schema: Schema, i: nat, items: seq<Value>, k: nat, pack: bool, done: seq<Byte>) {
    && i < |schema.fields| && schema.fields[i].htype.REPEATED? && !(pack && IsPackable(schema.fields[i].ltype))
    && ValidField(schema.fields[i]) && ValidSlot(schema.fields[i], Many(items))
    && k <= |items| <= schema.fields[i].htype.arraySize
    && ReadyField(schema, i, Many(items[..k])) && done == FieldBytes(schema, i, Many(items[..k]), pack)
  }

  lemma ItemsWrittenStep(schema: Schema, i: nat, items: seq<Value>, k: nat, pack: bool, done: seq<Byte>)
    requires ItemsWritten(schema, i, items, k, pack, done) && k < |items|
    ensures ValidValue(schema.fields[i].ltype, items[k])
    ensures ReadyField(schema, i, Many(items)) ==> EncodableValue(schema.fields[i].ltype, items[k])
    ensures EncodableValue(schema.fields[i].ltype, items[k]) ==>
      && ItemsWritten(schema, i, items, k + 1, pack, done + TaggedBytes(schema.fields[i], items[k], pack))
      && (ReadyField(schema, i, Many(items)) ==>
            |done| + |TaggedBytes(schema.fields[i], items[k], pack)| <= |FieldBytes(schema, i, Many(items), pack)|)
  {
    if EncodableValue(schema.fields[i].ltype, items[k]) {
      assert items[..k + 1] == items[..k] + [items[k]];
      ItemsStep(schema, i, items[..k], items[k], pack);
      if ReadyField(schema, i, Many(items)) { ItemsGrow(schema, i, items, k + 1, pack); }
    }
  }

  /** The other branch: a tag before each element. */
  method EncodeUnpacked(stream: OStream, schema: Schema, i: nat, items: seq<Value>, pack: bool) returns (ok: bool)
    requires stream.Valid() && i < |schema.fields| && ValidField(schema.fields[i])
    requires ValidSlot(schema.fields[i], Many(items)) && |items| <= schema.fields[i].htype.arraySize
    requires !(pack && IsPackable(schema.fields[i].ltype))
    requires forall k :: 0 <= k < |items| ==> SmallValue(schema.fields[i].ltype, items[k], pack)
    modifies stream
    ensures stream.Valid() && old(stream.state) <= stream.state
    ensures ok <==> ReadyField(schema, i, Many(items)) && old(stream.Room(|FieldBytes(schema, i, Many(items), pack)|))
    ensures ok ==> stream.Appended(old(stream.state), old(stream.bytesWritten),
      FieldBytes(schema, i, Many(items), pack))
    decreases schema, 0
  {
    ghost var s0, w0, done := stream.state, stream.bytesWritten, [];
    var k := 0;
    NoItems(schema, i, pack);
    assert items[..0] == [];
    while k < |items|
      invariant stream.Valid() && stream.Appended(s0, w0, done) && ItemsWritten(schema, i, items, k, pack, done)
    {
      ItemsWrittenStep(schema, i, items, k, pack, done);
      ok := EncodeTagAndValue(stream, schema.fields[i], items[k], pack);
      if !ok {
        return;
      }
      Regroup(s0, done, TaggedBytes(schema.fields[i], items[k], pack));
      done := done + TaggedBytes(schema.fields[i], items[k], pack);
      k := k + 1;
    }
    assert items[..k] == items;
    ok := true;
  }

  lemma NoItems(schema: Schema, i: nat, pack: bool)
    requires i < |schema.fields| && ValidField(schema.fields[i]) && schema.fields[i].htype.REPEATED?
    ensures ReadyField(schema, i, Many([])) && FieldBytes(schema, i, Many([]), pack) == []
  {
  }

  lemma ItemsStep(schema: Schema, i: nat, items: seq<Value>, v: Value, pack: bool)
    requires ReadyField(schema, i, Many(items)) && |items| < schema.fields[i].htype.arraySize
    requires ValidValue(schema.fields[i].ltype, v) && EncodableValue(schema.fields[i].ltype, v)
    requires schema.fields[i].htype.REPEATED? && !(pack && IsPackable(schema.fields[i].ltype))
    ensures ReadyField(schema, i, Many(items + [v]))
    ensures FieldBytes(schema, i, Many(items + [v]), pack) ==
      FieldBytes(schema, i, Many(items), pack) + TaggedBytes(schema.fields[i], v, pack)
  {
    var f := schema.fields[i];
    var more := items + [v];
    assert forall k :: 0 <= k < |more| ==> ValidValue(f.ltype, more[k]) && EncodableValue(f.ltype, more[k]);
    FieldTokensValid(schema, i, Many(items), pack);
    assert more[..|items|] == items;
    SingleBytes(schema, i, v, pack);
    assert FieldTokens(f, i, Many(items), pack) == ArrayTokens(f, i, items, pack);
    assert FieldTokens(f, i, Many(more), pack) ==
      ArrayTokens(f, i, items, pack) + [Single(i, ItemOf(f.ltype, v, pack))];
    BytesAppend(schema, ArrayTokens(f, i, items, pack), [Single(i, ItemOf(f.ltype, v, pack))]);
  }

  lemma {:induction false} ItemsGrow(schema: Schema, i: nat, items: seq<Value>, k: nat, pack: bool)
    requires ReadyField(schema, i, Many(items)) && k <= |items| <= schema.fields[i].htype.arraySize
    requires schema.fields[i].htype.REPEATED? && !(pack && IsPackable(schema.fields[i].ltype))
    ensures ReadyField(schema, i, Many(items[..k]))
    ensures |FieldBytes(schema, i, Many(items[..k]), pack)| <= |FieldBytes(schema, i, Many(items), pack)|
    decreases |items|
  {
    if k < |items| {
      var n := |items| - 1;
      assert items == items[..n] + [items[n]] && items[..n][..k] == items[..k];
      ItemsGrow(schema, i, items[..n], k, pack);
      ItemsStep(schema, i, items[..n], items[n], pack);
    } else {
      assert items[..k] == items;
    }
  }

  /** encode_array, for a field with a count. */
  method EncodeArray(stream: OStream, schema: Schema, i: nat, items: seq<Value>, pack: bool) returns (ok: bool)
    requires stream.Valid() && i < |schema.fields| && ValidField(schema.fields[i])
      && ValidSlot(schema.fields[i], Many(items))
    requires schema.fields[i].htype.REPEATED? && SmallSlot(schema.fields[i], Many(items), pack)
    modifies stream
    ensures stream.Valid() && old(stream.state) <= stream.state
    ensures ok <==> ReadyField(schema, i, Many(items)) && old(stream.Room(|FieldBytes(schema, i, Many(items), pack)|))
    ensures ok ==> stream.Appended(old(stream.state), old(stream.bytesWritten),
      FieldBytes(schema, i, Many(items), pack))
    decreases schema, 1
  {
    var f := schema.fields[i];
    if |items| == 0 {
      NoItems(schema, i, pack);
      return true;
    }
    if |items| > f.htype.arraySize {
      return false;
    }
    if pack && IsPackable(f.ltype) {
      ok := EncodePacked(stream, schema, i, items);
    } else {
      ok := EncodeUnpacked(stream, schema, i, items, pack);
    }
  }

  // ---------- Fields and messages ----------

  /** A tag and a value, where `s` is present. */
  method EncodeTagged(stream: OStream, schema: Schema, i: nat, s: Slot, pack: bool) returns (ok: bool)
    requires stream.Valid() && i < |schema.fields| && ValidField(schema.fields[i]) && ValidSlot(schema.fields[i], s)
    requires s.One? && Present(schema.fields[i], s) && SmallSlot(schema.fields[i], s, pack)
    modifies stream
    ensures stream.Valid() && old(stream.state) <= stream.state
    ensures ok <==> ReadyField(schema, i, s) && old(stream.Room(|FieldBytes(schema, i, s, pack)|))
    ensures ok ==> stream.Appended(old(stream.state), old(stream.bytesWritten), FieldBytes(schema, i, s, pack))
    decreases schema, 1
  {
    var f := schema.fields[i];
    if EncodableValue(f.ltype, s.value) { SingleBytes(schema, i, s.value, pack); }
    ok := EncodeTagAndValue(stream, f, s.value, pack);
  }

  /** encode_basic_field */
  method EncodeBasicField(stream: OStream, schema: Schema, i: nat, s: Slot, pack: bool) returns (ok: bool)
    requires stream.Valid() && i < |schema.fields| && ValidField(schema.fields[i]) && ValidSlot(schema.fields[i], s)
    requires SmallSlot(schema.fields[i], s, pack)
    modifies stream
    ensures stream.Valid() && old(stream.state) <= stream.state
    ensures ok <==> ReadyField(schema, i, s) && old(stream.Room(|FieldBytes(schema, i, s, pack)|))
    ensures ok ==> stream.Appended(old(stream.state), old(stream.bytesWritten), FieldBytes(schema, i, s, pack))
    decreases schema, 2
  {
    var f := schema.fields[i];
    var hasField := true;
    match f.htype {
      case REPEATED(_) =>
        ok := EncodeArray(stream, schema, i, s.items, pack);
        return;
      case SINGULAR => hasField := !IsZero(f.ltype, s.value);
      case REQUIRED =>
      case OPTIONAL => hasField := s.has;
      case ONEOF(_) => hasField := s.has;
    }
    if !hasField {
      return true;
    }
    ok := EncodeTagged(stream, schema, i, s, pack);
  }

  /** The first `n` fields have become `done`. */
  ghost predicate Written(schema: Schema, slots: seq<Slot>, n: nat, pack: bool, done: seq<Byte>)
    requires ValidSchema(schema) && ValidMessage(schema, slots)
  {
    && n <= |slots|
    && (forall j :: 0 <= j < n ==> EncodableSlot(schema.fields[j], slots[j]))
    && (Encodable(schema, slots) ==> done == FieldsBytes(schema, slots, n, pack))
  }

  lemma WrittenStep(schema: Schema, slots: seq<Slot>, n: nat, pack: bool, done: seq<Byte>)
    requires ValidSchema(schema) && ValidMessage(schema, slots) && Written(schema, slots, n, pack, done) && n < |slots|
    ensures ValidField(schema.fields[n]) && ValidSlot(schema.fields[n], slots[n])
    ensures ReadyField(schema, n, slots[n]) ==>
      Written(schema, slots, n + 1, pack, done + FieldBytes(schema, n, slots[n], pack))
    ensures Encodable(schema, slots) ==>
      && ReadyField(schema, n, slots[n])
      && |done| + |FieldBytes(schema, n, slots[n], pack)| <= |MessageBytes(schema, slots, pack)|
  {
    if Encodable(schema, slots) {
      FieldsBytesStep(schema, slots, n, pack);
      FieldsBytesGrow(schema, slots, n + 1, |slots|, pack);
    }
  }

  /** One more field, behind the `done` bytes that were written to a stream in the given state. */
  method EncodeNext(stream: OStream, schema: Schema, slots: seq<Slot>, n: nat, pack: bool, ghost s0: seq<Byte>,
                    ghost w0: nat, ghost done: seq<Byte>) returns (ok: bool, ghost done': seq<Byte>)
    requires stream.Valid() && stream.Appended(s0, w0, done)
    requires ValidSchema(schema) && ValidMessage(schema, slots) && SmallMessage(schema, slots, pack)
    requires Written(schema, slots, n, pack, done) && n < |slots|
    modifies stream
    ensures stream.Valid() && old(stream.state) <= stream.state
    ensures ok ==> stream.Appended(s0, w0, done') && Written(schema, slots, n + 1, pack, done')
    ensures !ok && Encodable(schema, slots) ==>
      !stream.sizing && w0 + |MessageBytes(schema, slots, pack)| > stream.maxSize
    decreases schema, 3
  {
    WrittenStep(schema, slots, n, pack, done);
    done' := done;
    ok := EncodeBasicField(stream, schema, n, slots[n], pack);
    if ok {
      Regroup(s0, done, FieldBytes(schema, n, slots[n], pack));
      done' := done + FieldBytes(schema, n, slots[n], pack);
    }
  }

  /** pb_encode: succeeds exactly when the message is within its storage and the stream has room, and
      writes its bytes. */
  lemma WrittenStart(schema: Schema, slots: seq<Slot>, pack: bool)
    requires ValidSchema(schema) && ValidMessage(schema, slots)
    ensures Written(schema, slots, 0, pack, [])
  {
  }

  lemma WrittenAll(schema: Schema, slots: seq<Slot>, pack: bool, done: seq<Byte>)
    requires ValidSchema(schema) && ValidMessage(schema, slots) && Written(schema, slots, |slots|, pack, done)
    ensures Encodable(schema, slots) && done == MessageBytes(schema, slots, pack)
  {
  }

  /** The loop of pb_encode, from the first field on. */
  method EncodeFields(stream: OStream, schema: Schema, slots: seq<Slot>, pack: bool, iter: Iter.FieldIter)
    returns (ok: bool)
    requires stream.Valid() && ValidSchema(schema) && ValidMessage(schema, slots) && SmallMessage(schema, slots, pack)
    requires iter.Valid() && iter.fields == Describe(schema) && iter.pos == 0 && slots != []
    modifies stream, iter
    ensures stream.Valid() && old(stream.state) <= stream.state
    ensures ok ==> Encodable(schema, slots)
    ensures ok ==> stream.Appended(old(stream.state), old(stream.bytesWritten), MessageBytes(schema, slots, pack))
    ensures !ok && Encodable(schema, slots) ==> !old(stream.Room(|MessageBytes(schema, slots, pack)|))
    decreases schema, 4
  {
    ghost var s0, w0, done := stream.state, stream.bytesWritten, [];
    ghost var n := 0;
    var more := true;
    WrittenStart(schema, slots, pack);
    while more
      invariant iter.Valid() && iter.fields == Describe(schema) && stream.Valid()
      invariant n == (if more then iter.pos else |slots|) && (more ==> n < |slots|)
      invariant s0 <= stream.state && stream.Appended(s0, w0, done) && Written(schema, slots, n, pack, done)
      decreases |slots| - n
    {
      ok, done := EncodeNext(stream, schema, slots, iter.pos, pack, s0, w0, done);
      if !ok {
        return;
      }
      n := n + 1;
      more := iter.Next();
    }
    WrittenAll(schema, slots, pack, done);
    ok := true;
  }

  method Encode(stream: OStream, schema: Schema, slots: seq<Slot>, pack: bool) returns (ok: bool)
    requires stream.Valid() && ValidSchema(schema) && ValidMessage(schema, slots) && SmallMessage(schema, slots, pack)
    modifies stream
    ensures stream.Valid() && old(stream.state) <= stream.state
    ensures ok <==> Encodable(schema, slots) && old(stream.Room(|MessageBytes(schema, slots, pack)|))
    ensures ok ==> stream.Appended(old(stream.state), old(stream.bytesWritten), MessageBytes(schema, slots, pack))
    decreases schema, 5
  {
    TagsPositive(schema);
    var iter := new Iter.FieldIter(Describe(schema), 1);
    var more := iter.Begin();
    if !more {
      return true;
    }
    ok := EncodeFields(stream, schema, slots, pack, iter);
  }
}
