/** Messages of a schema, and what the wire format says about them: as a tree of tokens. */
module PbMessage {
  import opened Bytes
  import opened PbVarint
  import Iter = PbFieldIter

  // ---------- Schemas and messages ----------

  datatype LType = BOOL | VARINT(size: nat) | UVARINT(size: nat) | SVARINT(size: nat) | FIXED32 | FIXED64
                 | BYTES(max: nat) | STRING(dataSize: nat) | FIXED_LENGTH_BYTES(len: nat) | SUBMESSAGE(schema: Schema)

  /** SINGULAR is PB_HTYPE_OPTIONAL without a has field, as in proto3. */
  datatype HType = REQUIRED | OPTIONAL | SINGULAR | REPEATED(arraySize: nat) | ONEOF(group: nat)

  datatype Field = Field(tag: nat, htype: HType, ltype: LType, dflt: Value)

  datatype Schema = Schema(fields: seq<Field>)

  /** A field's memory: a number, a byte string, or the struct of a submessage. */
  datatype Value = Int(i: int) | Blob(b: seq<Byte>) | Msg(slots: seq<Slot>)

  /** One field of a struct with its has or which flag, or an array with its count.  Required and singular
      fields have no flag; theirs is always set here. */
  datatype Slot = One(has: bool, value: Value) | Many(items: seq<Value>)

  /** How far a signed integer of this many bytes reaches. */
  function Half(size: nat): int {
    if size == 1 then 0x80 else if size == 2 then 0x8000 else if size == 4 then 0x8000_0000 else TWO63
  }

  predicate ValidSize(size: nat) {
    size == 1 || size == 2 || size == 4 || size == 8
  }

  predicate IsPackable(t: LType) {
    t.BOOL? || t.VARINT? || t.UVARINT? || t.SVARINT? || t.FIXED32? || t.FIXED64?
  }

  /** The values the C type of a scalar field can hold; strings end inside their field. */
  predicate Typed(t: LType, v: Value) {
    match t
    case BOOL => v.Int? && 0 <= v.i <= 1
    case VARINT(size) => v.Int? && -Half(size) <= v.i < Half(size)
    case UVARINT(size) => v.Int? && 0 <= v.i < 2 * Half(size)
    case SVARINT(size) => v.Int? && -Half(size) <= v.i < Half(size)
    case FIXED32 => v.Int? && 0 <= v.i < TWO32
    case FIXED64 => v.Int? && 0 <= v.i < TWO64
    case BYTES(max) => v.Blob? && |v.b| <= Iter.PB_SIZE_MAX
    case STRING(dataSize) => v.Blob? && |v.b| < dataSize && 0 !in v.b
    case FIXED_LENGTH_BYTES(len) => v.Blob? && |v.b| == len
    case SUBMESSAGE(_) => false
  }

  /** A byte array whose size field is within its capacity. */
  predicate Fits(t: LType, v: Value) {
    t.BYTES? && v.Blob? ==> |v.b| <= t.max
  }

  ghost predicate ValidLType(t: LType)
    decreases t
  {
    match t
    case VARINT(size) => ValidSize(size)
    case UVARINT(size) => ValidSize(size)
    case SVARINT(size) => ValidSize(size)
    case BYTES(max) => max <= Iter.PB_SIZE_MAX
    case STRING(dataSize) => 0 < dataSize < TWO32
    case FIXED_LENGTH_BYTES(len) => len <= Iter.PB_SIZE_MAX
    case SUBMESSAGE(schema) => ValidSchema(schema)
    case _ => true
  }

  ghost predicate ValidField(f: Field)
    decreases f
  {
    && 0 < f.tag < 0x2000_0000
    && ValidLType(f.ltype)
    && (f.htype.REPEATED? ==> f.htype.arraySize <= Iter.PB_SIZE_MAX)
    && (!f.ltype.SUBMESSAGE? ==> Typed(f.ltype, f.dflt) && (f.htype.SINGULAR? ==> ZeroDefault(f)))
  }

  /** A singular field has no default but zero. */
  predicate ZeroDefault(f: Field) {
    f.ltype.FIXED_LENGTH_BYTES? || IsZeroScalar(f.ltype, f.dflt)
  }

  /** Distinct nonzero tags, all the way down. */
  ghost predicate ValidSchema(schema: Schema)
    decreases schema
  {
    && (forall i :: 0 <= i < |schema.fields| ==> ValidField(schema.fields[i]))
    && (forall i, j :: 0 <= i < j < |schema.fields| ==> schema.fields[i].tag != schema.fields[j].tag)
  }

  /** What the field iterator sees of a schema; the memory layout is left open. */
  function Describe(schema: Schema): (d: seq<Iter.Descriptor>)
    ensures |d| == |schema.fields|
  {
    seq(|schema.fields|, i requires 0 <= i < |schema.fields| => DescribeField(schema.fields[i]))
  }

  function DescribeField(f: Field): Iter.Descriptor {
    Iter.Descriptor(f.tag,
                    match f.htype
                    case REQUIRED => Iter.REQUIRED
                    case OPTIONAL => Iter.OPTIONAL
                    case SINGULAR => Iter.OPTIONAL
                    case REPEATED(_) => Iter.REPEATED
                    case ONEOF(_) => Iter.ONEOF,
                    Iter.STATIC, false, 0, 0, 0, 0)
  }

  lemma TagsPositive(schema: Schema)
    requires ValidSchema(schema)
    ensures Iter.ValidFields(Describe(schema))
  {
    forall i | 0 <= i < |schema.fields| ensures Describe(schema)[i].tag > 0 {
      assert ValidField(schema.fields[i]);
    }
  }

  // ---------- Structs of the right form ----------

  /** Memory of a field's type. */
  ghost predicate ShapedValue(t: LType, v: Value)
    decreases t, 0
  {
    match t
    case SUBMESSAGE(schema) => v.Msg? && Shaped(schema, v.slots)
    case BYTES(_) => v.Blob?
    case STRING(_) => v.Blob?
    case FIXED_LENGTH_BYTES(_) => v.Blob?
    case _ => v.Int?
  }

  ghost predicate ShapedSlot(f: Field, s: Slot)
    decreases f, 0
  {
    if f.htype.REPEATED? then s.Many? && forall k :: 0 <= k < |s.items| ==> ShapedValue(f.ltype, s.items[k])
    else s.One? && ShapedValue(f.ltype, s.value)
  }

  ghost predicate Shaped(schema: Schema, slots: seq<Slot>)
    decreases schema, 0
  {
    && |slots| == |schema.fields|
    && forall i :: 0 <= i < |slots| ==> ShapedSlot(schema.fields[i], slots[i])
  }

  // ---------- Defaults and zeros ----------

  /** pb_field_set_to_default, pb_message_set_to_defaults */
  function DefaultValue(f: Field): Value
    decreases f, 0
  {
    if f.ltype.SUBMESSAGE? then Msg(Defaults(f.ltype.schema)) else f.dflt
  }

  function DefaultSlot(f: Field): Slot
    decreases f, 1
  {
    if f.htype.REPEATED? then Many([]) else One(f.htype.REQUIRED? || f.htype.SINGULAR?, DefaultValue(f))
  }

  function Defaults(schema: Schema): (slots: seq<Slot>)
    ensures |slots| == |schema.fields|
    decreases schema, 1
  {
    seq(|schema.fields|, i requires 0 <= i < |schema.fields| => DefaultSlot(schema.fields[i]))
  }

  predicate IsZeroScalar(t: LType, v: Value) {
    match t
    case BYTES(_) => v.Blob? && |v.b| == 0
    case STRING(_) => v.Blob? && |v.b| == 0
    case FIXED_LENGTH_BYTES(len) => len == 0
    case _ => v.Int? && v.i == 0
  }

  /** pb_check_proto3_default_value */
  predicate IsZero(t: LType, v: Value)
    decreases t, 0
  {
    if t.SUBMESSAGE? then v.Msg? && |v.slots| == |t.schema.fields| && AllZero(t.schema, v.slots)
    else IsZeroScalar(t, v)
  }

  predicate AllZero(schema: Schema, slots: seq<Slot>)
    requires |slots| == |schema.fields|
    decreases schema, 0
  {
    forall i :: 0 <= i < |slots| ==> IsZeroSlot(schema.fields[i], slots[i])
  }

  predicate IsZeroSlot(f: Field, s: Slot)
    decreases f, 0
  {
    match f.htype
    case REQUIRED => false
    case REPEATED(_) => s.Many? && |s.items| == 0
    case ONEOF(_) => s.One? && !s.has
    case OPTIONAL => s.One? && !s.has
    case SINGULAR => s.One? && IsZero(f.ltype, s.value)
  }

  // ---------- Messages that a program can hold ----------

  ghost predicate ValidValue(t: LType, v: Value)
    decreases t, 0
  {
    if t.SUBMESSAGE? then v.Msg? && ValidMessage(t.schema, v.slots) else Typed(t, v)
  }

  ghost predicate ValidSlot(f: Field, s: Slot)
    decreases f, 0
  {
    if f.htype.REPEATED? then s.Many? && forall k :: 0 <= k < |s.items| ==> ValidValue(f.ltype, s.items[k])
    else s.One? && ValidValue(f.ltype, s.value) && (f.htype.REQUIRED? || f.htype.SINGULAR? ==> s.has)
  }

  /** Two members of one union are not both set. */
  predicate Exclusive(schema: Schema, slots: seq<Slot>, i: nat, j: nat)
    requires i < |slots| == |schema.fields| && j < |slots|
  {
    && schema.fields[i].htype.ONEOF? && schema.fields[i].htype == schema.fields[j].htype && slots[i].One?
      && slots[j].One?
    ==> !(slots[i].has && slots[j].has)
  }

  ghost predicate ValidMessage(schema: Schema, slots: seq<Slot>)
    decreases schema, 0
  {
    && |slots| == |schema.fields|
    && (forall i :: 0 <= i < |slots| ==> ValidSlot(schema.fields[i], slots[i]))
    && (forall i, j :: 0 <= i < j < |slots| ==> Exclusive(schema, slots, i, j))
  }

  /** Whether the encoder writes a field that is not an array. */
  predicate Present(f: Field, s: Slot)
    requires s.One?
  {
    match f.htype
    case SINGULAR => !IsZero(f.ltype, s.value)
    case REQUIRED => true
    case _ => s.has
  }

  // ---------- Tokens ----------

  /** One field on the wire: a value, a packed array, or a field that the schema does not know. */
  datatype Token = Single(field: nat, item: Item) | Packed(field: nat, values: seq<Value>) | Unknown(tag: nat, raw: Raw)

  datatype Item = Scalar(v: Value) | Sub(tokens: seq<Token>)

  datatype Raw = RawVarint(v: nat) | Raw64(b: seq<Byte>) | RawString(b: seq<Byte>) | Raw32(b: seq<Byte>)

  function WireType(t: LType): nat {
    match t
    case FIXED32 => 5
    case FIXED64 => 1
    case BYTES(_) => 2
    case STRING(_) => 2
    case FIXED_LENGTH_BYTES(_) => 2
    case SUBMESSAGE(_) => 2
    case _ => 0
  }

  function RawWireType(r: Raw): nat {
    if r.RawVarint? then 0 else if r.Raw64? then 1 else if r.RawString? then 2 else 5
  }

  predicate ValidRaw(r: Raw) {
    match r
    case RawVarint(v) => v < TWO64
    case Raw64(b) => |b| == 8
    case Raw32(b) => |b| == 4
    case RawString(b) => |b| < TWO32
  }

  ghost predicate ValidItem(t: LType, item: Item)
    decreases item
  {
    match item
    case Scalar(v) => Typed(t, v) && Fits(t, v)
    case Sub(tokens) => t.SUBMESSAGE? && ValidTokens(t.schema, tokens)
  }

  ghost predicate ValidToken(schema: Schema, t: Token)
    decreases t
  {
    match t
    case Single(i, item) => i < |schema.fields| && ValidItem(schema.fields[i].ltype, item)
    case Packed(i, values) =>
      && i < |schema.fields| && schema.fields[i].htype.REPEATED? && IsPackable(schema.fields[i].ltype)
      && forall k :: 0 <= k < |values| ==> Typed(schema.fields[i].ltype, values[k])
    case Unknown(tag, raw) =>
      0 < tag < 0x2000_0000 && ValidRaw(raw) && forall i :: 0 <= i < |schema.fields| ==> schema.fields[i].tag != tag
  }

  ghost predicate ValidTokens(schema: Schema, ts: seq<Token>)
    decreases ts
  {
    forall k :: 0 <= k < |ts| ==> ValidToken(schema, ts[k])
  }

  // ---------- Bytes ----------

  function TagBytes(tag: nat, wireType: nat): seq<Byte> {
    VarintBytes(tag * 8 + wireType)
  }

  function Delimited(b: seq<Byte>): seq<Byte> {
    VarintBytes(|b|) + b
  }

  function ScalarBytes(t: LType, v: Value): seq<Byte>
    requires Typed(t, v)
  {
    match t
    case BOOL => VarintBytes(v.i)
    case VARINT(_) => VarintBytes(ToUnsigned(v.i))
    case UVARINT(_) => VarintBytes(v.i)
    case SVARINT(_) => VarintBytes(ZigZag(v.i))
    case FIXED32 => EncodeFixed(v.i, 4)
    case FIXED64 => EncodeFixed(v.i, 8)
    case _ => Delimited(v.b)
  }

  function ScalarsBytes(t: LType, vs: seq<Value>): seq<Byte>
    requires forall k :: 0 <= k < |vs| ==> Typed(t, vs[k])
  {
    if vs == [] then [] else ScalarBytes(t, vs[0]) + ScalarsBytes(t, vs[1..])
  }

  function RawBytes(r: Raw): seq<Byte> {
    match r
    case RawVarint(v) => VarintBytes(v)
    case RawString(b) => Delimited(b)
    case _ => r.b
  }

  function ItemBytes(t: LType, item: Item): seq<Byte>
    requires ValidItem(t, item)
    decreases item
  {
    match item
    case Scalar(v) => ScalarBytes(t, v)
    case Sub(tokens) => Delimited(TokensBytes(t.schema, tokens))
  }

  /** What follows the tag. */
  function PayloadBytes(schema: Schema, t: Token): seq<Byte>
    requires ValidToken(schema, t)
    decreases t, 0
  {
    match t
    case Single(i, item) => ItemBytes(schema.fields[i].ltype, item)
    case Packed(i, values) => Delimited(ScalarsBytes(schema.fields[i].ltype, values))
    case Unknown(_, raw) => RawBytes(raw)
  }

  function TokenTag(schema: Schema, t: Token): nat
    requires ValidToken(schema, t)
  {
    if t.Unknown? then t.tag else schema.fields[t.field].tag
  }

  function TokenWireType(schema: Schema, t: Token): nat
    requires ValidToken(schema, t)
  {
    match t
    case Single(i, _) => WireType(schema.fields[i].ltype)
    case Packed(_, _) => 2
    case Unknown(_, raw) => RawWireType(raw)
  }

  function TokenBytes(schema: Schema, t: Token): seq<Byte>
    requires ValidToken(schema, t)
    decreases t, 1
  {
    TagBytes(TokenTag(schema, t), TokenWireType(schema, t)) + PayloadBytes(schema, t)
  }

  function TokensBytes(schema: Schema, ts: seq<Token>): seq<Byte>
    requires ValidTokens(schema, ts)
    decreases ts
  {
    if ts == [] then [] else TokenBytes(schema, ts[0]) + TokensBytes(schema, ts[1..])
  }
}
