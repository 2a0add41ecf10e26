/** What is left of a message, field by field: what decoding gives back, what is written at all, and which of several
    values of a field stays. */
module PbSame {
  import opened Bytes
  import opened PbMessage
  import opened PbMeaning
  import opened PbVarint
  import opened Wrappers

  // ---------- Nothing is lost ----------

  /** The same value; of a submessage the same as far as its fields are set. */
  ghost predicate SameValue(t: LType, v: Value, w: Value)
    decreases t
  {
    if t.SUBMESSAGE? then v.Msg? && w.Msg? && SameMessage(t.schema, v.slots, w.slots) else v == w
  }

  ghost predicate SameSlot(f: Field, s: Slot, r: Slot)
    decreases f
  {
    match f.htype
    case REPEATED(_) =>
      && s.Many? && r.Many? && |s.items| == |r.items|
      && forall k :: 0 <= k < |s.items| ==> SameValue(f.ltype, s.items[k], r.items[k])
    case REQUIRED => s.One? && r.One? && SameValue(f.ltype, s.value, r.value)
    case SINGULAR => s.One? && r.One? && SameValue(f.ltype, s.value, r.value)
    case _ => s.One? && r.One? && s.has == r.has && (s.has ==> SameValue(f.ltype, s.value, r.value))
  }

  ghost predicate SameMessage(schema: Schema, slots: seq<Slot>, others: seq<Slot>)
    decreases schema
  {
    |slots| == |others| == |schema.fields|
    && forall i :: 0 <= i < |slots| ==> SameSlot(schema.fields[i], slots[i], others[i])
  }

  /** What is taken for zero, and not written, is the default that it comes back as. */
  lemma {:induction false} ZeroIsDefault(f: Field, v: Value)
    requires ValidField(f) && f.htype.SINGULAR? && ValidValue(f.ltype, v) && IsZero(f.ltype, v)
    ensures SameValue(f.ltype, v, DefaultValue(f))
    decreases f
  {
    if f.ltype.SUBMESSAGE? {
      var schema := f.ltype.schema;
      assert ValidLType(f.ltype) && ValidSchema(schema) && ValidMessage(schema, v.slots) && AllZero(schema, v.slots);
      forall i | 0 <= i < |v.slots|
        ensures SameSlot(schema.fields[i], v.slots[i], Defaults(schema)[i])
      {
        assert ValidField(schema.fields[i]) && ValidSlot(schema.fields[i], v.slots[i]);
        assert IsZeroSlot(schema.fields[i], v.slots[i]) && Defaults(schema)[i] == DefaultSlot(schema.fields[i]);
        if schema.fields[i].htype.SINGULAR? { ZeroIsDefault(schema.fields[i], v.slots[i].value); }
      }
    } else {
      ZeroScalar(f, v);
    }
  }

  lemma ZeroScalar(f: Field, v: Value)
    requires ValidField(f) && f.htype.SINGULAR? && !f.ltype.SUBMESSAGE? && Typed(f.ltype, v) && IsZero(f.ltype, v)
    ensures v == DefaultValue(f)
  {
    assert Typed(f.ltype, f.dflt) && ZeroDefault(f);
  }

  lemma {:induction false} ValueIsKept(t: LType, v: Value)
    requires ValidLType(t) && ValidValue(t, v)
    ensures SameValue(t, v, NormalValue(t, v))
    decreases t, 0
  {
    if t.SUBMESSAGE? { MessageIsKept(t.schema, v.slots); }
  }

  lemma {:induction false} SlotIsKept(f: Field, s: Slot)
    requires ValidField(f) && ValidSlot(f, s)
    ensures SameSlot(f, s, NormalSlot(f, s))
    decreases f, 0
  {
    if s.Many? {
      forall k | 0 <= k < |s.items|
        ensures SameValue(f.ltype, s.items[k], NormalSlot(f, s).items[k])
      {
        ValueIsKept(f.ltype, s.items[k]);
      }
    } else if Present(f, s) {
      ValueIsKept(f.ltype, s.value);
    } else if f.htype.SINGULAR? {
      ZeroIsDefault(f, s.value);
    }
  }

  /** A message comes back as it was: numbers, strings, arrays and submessages that are set, and what is set. */
  lemma {:induction false} MessageIsKept(schema: Schema, slots: seq<Slot>)
    requires ValidSchema(schema) && ValidMessage(schema, slots)
    ensures SameMessage(schema, slots, Normal(schema, slots))
    decreases schema, 0
  {
    forall i | 0 <= i < |slots|
      ensures SameSlot(schema.fields[i], slots[i], Normal(schema, slots)[i])
    {
      assert ValidField(schema.fields[i]) && ValidSlot(schema.fields[i], slots[i]);
      SlotIsKept(schema.fields[i], slots[i]);
    }
  }

  // ---------- What is written ----------

  lemma {:induction false} NoTokens(f: Field, i: nat, items: seq<Value>, pack: bool)
    ensures |ArrayTokens(f, i, items, pack)| == |items|
  {
    if items != [] { NoTokens(f, i, items[..|items| - 1], pack); }
  }

  /** What is not written: an empty array, a field that is not set, and without a flag the number 0, an empty string,
      and a submessage of which nothing is written. */
  ghost predicate IsLeftOut(f: Field, s: Slot, pack: bool) {
    match f.htype
    case REPEATED(_) => s.Many? && s.items == []
    case REQUIRED => false
    case OPTIONAL => s.One? && !s.has
    case ONEOF(_) => s.One? && !s.has
    case SINGULAR =>
      s.One? &&
      match s.value
      case Int(n) => n == 0
      case Blob(b) => b == []
      case Msg(slots) =>
        f.ltype.SUBMESSAGE? && |slots| == |f.ltype.schema.fields| && TokensOf(f.ltype.schema, slots, pack) == []
  }

  /** A field gives no token exactly then. */
  lemma {:induction false} LeftOutIff(f: Field, i: nat, s: Slot, pack: bool)
    requires ValidField(f) && ValidSlot(f, s)
    ensures FieldTokens(f, i, s, pack) == [] <==> IsLeftOut(f, s, pack)
    decreases f, 1
  {
    if s.Many? {
      NoTokens(f, i, s.items, pack);
    } else if f.htype.SINGULAR? {
      assert ValidLType(f.ltype) && ValidValue(f.ltype, s.value);
      if f.ltype.SUBMESSAGE? { NothingInside(f.ltype.schema, s.value.slots, pack); }
    }
  }

  /** A submessage is taken for zero exactly if nothing of it would be written. */
  lemma {:induction false} NothingInside(schema: Schema, slots: seq<Slot>, pack: bool)
    requires ValidSchema(schema) && ValidMessage(schema, slots)
    ensures AllZero(schema, slots) <==> TokensOf(schema, slots, pack) == []
    decreases schema, 1
  {
    forall i: nat | i < |slots|
      ensures IsZeroSlot(schema.fields[i], slots[i]) <==> FieldTokens(schema.fields[i], i, slots[i], pack) == []
    {
      assert ValidField(schema.fields[i]) && ValidSlot(schema.fields[i], slots[i]);
      LeftOutIff(schema.fields[i], i, slots[i], pack);
      if schema.fields[i].htype.SINGULAR? && schema.fields[i].ltype.SUBMESSAGE? {
        assert ValidLType(schema.fields[i].ltype) && ValidValue(schema.fields[i].ltype, slots[i].value);
        NothingInside(schema.fields[i].ltype.schema, slots[i].value.slots, pack);
      }
    }
    AllEmpty(schema, slots, |slots|, pack);
  }

  lemma {:induction false} AllEmpty(schema: Schema, slots: seq<Slot>, n: nat, pack: bool)
    requires n <= |slots| == |schema.fields|
    ensures FieldsTokens(schema, slots, n, pack) == [] <==>
      forall i: nat :: i < n ==> FieldTokens(schema.fields[i], i, slots[i], pack) == []
  {
    if n > 0 { AllEmpty(schema, slots, n - 1, pack); }
  }

  // ---------- Which of several values stays ----------

  /** The token changes nothing of field `i`. */
  predicate PassesBy(schema: Schema, t: Token, i: nat) {
    || t.Unknown?
    || (t.field != i && (i < |schema.fields| && t.field < |schema.fields| && schema.fields[i].htype.ONEOF? ==>
          schema.fields[t.field].htype != schema.fields[i].htype))
  }

  lemma OtherFieldStays(schema: Schema, t: Token, slots: seq<Slot>, i: nat)
    requires i < |slots| == |schema.fields| && PassesBy(schema, t, i)
    requires ApplyToken(schema, t, slots).Some?
    ensures ApplyToken(schema, t, slots).value[i] == slots[i]
  {
  }

  lemma {:induction false} OthersStay(schema: Schema, ts: seq<Token>, slots: seq<Slot>, i: nat)
    requires i < |slots| == |schema.fields| && forall t :: t in ts ==> PassesBy(schema, t, i)
    requires ApplyAll(schema, ts, slots).Some?
    ensures ApplyAll(schema, ts, slots).value[i] == slots[i]
    decreases |ts|
  {
    if ts != [] {
      assert ts[0] in ts;
      OtherFieldStays(schema, ts[0], slots, i);
      OthersStay(schema, ts[1..], ApplyToken(schema, ts[0], slots).value, i);
    }
  }

  /** Of a field that is not an array the last value stays, whatever came before it. */
  lemma LastStays(schema: Schema, before: seq<Token>, i: nat, v: Value, behind: seq<Token>, slots: seq<Slot>)
    requires i < |slots| == |schema.fields| && !schema.fields[i].htype.REPEATED?
    requires forall t :: t in behind ==> PassesBy(schema, t, i)
    requires ApplyAll(schema, before + [Single(i, Scalar(v))] + behind, slots).Some?
    ensures ApplyAll(schema, before + [Single(i, Scalar(v))] + behind, slots).value[i] == One(true, v)
  {
    var one := [Single(i, Scalar(v))];
    ApplyAppend(schema, before + one, behind, slots);
    ApplyAppend(schema, before, one, slots);
    var mid := ApplyAll(schema, before, slots).value;
    ApplyOne(schema, one[0], mid);
    OthersStay(schema, behind, ApplyAll(schema, before + one, slots).value, i);
  }

  /** No two members of one union are set. */
  ghost predicate OneOfEach(schema: Schema, slots: seq<Slot>)
    requires |slots| == |schema.fields|
  {
    forall i, j :: 0 <= i < j < |slots| && schema.fields[i].htype.ONEOF? && schema.fields[j].htype.ONEOF?
      && schema.fields[i].htype.group == schema.fields[j].htype.group && slots[i].One? && slots[j].One?
      ==> !(slots[i].has && slots[j].has)
  }

  lemma {:induction false} OneOfEachStays(schema: Schema, ts: seq<Token>, slots: seq<Slot>)
    requires |slots| == |schema.fields| && OneOfEach(schema, slots) && ApplyAll(schema, ts, slots).Some?
    ensures OneOfEach(schema, ApplyAll(schema, ts, slots).value)
    decreases |ts|
  {
    if ts != [] {
      OneOfEachStep(schema, ts[0], slots);
      OneOfEachStays(schema, ts[1..], ApplyToken(schema, ts[0], slots).value);
    }
  }

  lemma OneOfEachStep(schema: Schema, t: Token, slots: seq<Slot>)
    requires |slots| == |schema.fields| && OneOfEach(schema, slots) && ApplyToken(schema, t, slots).Some?
    ensures OneOfEach(schema, ApplyToken(schema, t, slots).value)
  {
    if t.Single? && !schema.fields[t.field].htype.REPEATED? {
      var r, i := ApplyToken(schema, t, slots).value, t.field;
      forall j | 0 <= j < |slots| && j != i
        ensures r[j] == slots[j] || (r[j].One? && !r[j].has)
        ensures schema.fields[i].htype.ONEOF? && schema.fields[j].htype == schema.fields[i].htype && r[j].One? ==>
          !r[j].has
      {
      }
    }
  }

  /** Whatever tokens a struct of defaults meets, at most one member of each union is set afterwards. */
  lemma AtMostOneMember(schema: Schema, ts: seq<Token>)
    requires ApplyAll(schema, ts, Defaults(schema)).Some?
    ensures OneOfEach(schema, ApplyAll(schema, ts, Defaults(schema)).value)
  {
    assert forall i :: 0 <= i < |schema.fields| ==> Defaults(schema)[i] == DefaultSlot(schema.fields[i]);
    OneOfEachStays(schema, ts, Defaults(schema));
  }

  /** A field that no token has: an empty array; else its declared default, without a flag if it has one. */
  ghost predicate IsMissing(f: Field, s: Slot) {
    match f.htype
    case REPEATED(_) => s == Many([])
    case _ =>
      s.One? && (s.has <==> f.htype.REQUIRED? || f.htype.SINGULAR?) && (!f.ltype.SUBMESSAGE? ==> s.value == f.dflt)
  }

  lemma DefaultIsMissing(f: Field)
    ensures IsMissing(f, DefaultSlot(f))
  {
  }

  lemma {:induction false} MissingStays(schema: Schema, ts: seq<Token>, slots: seq<Slot>, i: nat)
    requires i < |slots| == |schema.fields| && IsMissing(schema.fields[i], slots[i])
    requires i !in SeenFields(ts) && ApplyAll(schema, ts, slots).Some?
    ensures IsMissing(schema.fields[i], ApplyAll(schema, ts, slots).value[i])
    decreases |ts|
  {
    if ts != [] {
      MissingStep(schema, ts[0], slots, i);
      assert SeenFields(ts) == SeenField(ts[0]) + SeenFields(ts[1..]);
      MissingStays(schema, ts[1..], ApplyToken(schema, ts[0], slots).value, i);
    }
  }

  lemma MissingStep(schema: Schema, t: Token, slots: seq<Slot>, i: nat)
    requires i < |slots| == |schema.fields| && IsMissing(schema.fields[i], slots[i])
    requires (t.Unknown? || t.field != i) && ApplyToken(schema, t, slots).Some?
    ensures IsMissing(schema.fields[i], ApplyToken(schema, t, slots).value[i])
  {
    if PassesBy(schema, t, i) {
      OtherFieldStays(schema, t, slots, i);
    } else {
      assert t.Single? && schema.fields[t.field].htype.ONEOF?;
      DefaultIsMissing(schema.fields[i]);
      assert ApplyToken(schema, t, slots).value[i] == ClearUnion(schema, slots, t.field)[i];
      assert ClearUnion(schema, slots, t.field)[i] == DefaultSlot(schema.fields[i]);
    }
  }

  /** A field without a token has its default after decoding into a struct of defaults. */
  lemma MissingIsDefault(schema: Schema, ts: seq<Token>, i: nat)
    requires i < |schema.fields| && i !in SeenFields(ts) && ApplyAll(schema, ts, Defaults(schema)).Some?
    ensures IsMissing(schema.fields[i], ApplyAll(schema, ts, Defaults(schema)).value[i])
  {
    assert Defaults(schema)[i] == DefaultSlot(schema.fields[i]);
    MissingStays(schema, ts, Defaults(schema), i);
  }

  // ---------- Several occurrences ----------

  /** Two occurrences of a submessage merge: their fields, one after the other, are as good as both. */
  lemma SubmessagesMerge(schema: Schema, i: nat, x: seq<Token>, y: seq<Token>, slots: seq<Slot>)
    requires i < |slots| == |schema.fields| && slots[i].One?
    requires schema.fields[i].ltype.SUBMESSAGE? && !schema.fields[i].htype.REPEATED?
    requires RequiredSeen(schema.fields[i].ltype.schema, x) && RequiredSeen(schema.fields[i].ltype.schema, y)
    ensures ApplyAll(schema, [Single(i, Sub(x)), Single(i, Sub(y))], slots) ==
      ApplyAll(schema, [Single(i, Sub(x + y))], slots)
  {
    var sub, v := schema.fields[i].ltype.schema, StartsFrom(schema.fields[i], slots[i]);
    ApplyAppend(schema, [Single(i, Sub(x))], [Single(i, Sub(y))], slots);
    assert [Single(i, Sub(x))] + [Single(i, Sub(y))] == [Single(i, Sub(x)), Single(i, Sub(y))];
    SeenAppend(x, y);
    OneSub(schema, i, x, slots);
    OneSub(schema, i, x + y, slots);
    if v.Msg? && |v.slots| == |sub.fields| {
      ApplyAppend(sub, x, y, v.slots);
      if ApplyAll(sub, x, v.slots).Some? {
        var mid := WithMember(schema, slots, i, One(true, Msg(ApplyAll(sub, x, v.slots).value)));
        OneSub(schema, i, y, mid);
        if ApplyAll(sub, y, mid[i].value.slots).Some? {
          SetTwice(schema, slots, i, mid[i], One(true, Msg(ApplyAll(sub, y, mid[i].value.slots).value)));
        }
      }
    }
  }

  /** What a submessage is merged into: what is there, but a member of a union that is not set starts from defaults. */
  function StartsFrom(f: Field, s: Slot): Value
    requires s.One?
  {
    match f.htype
    case ONEOF(_) => if s.has then s.value else DefaultValue(f)
    case _ => s.value
  }

  /** Another member of the same union is not set any more. */
  function WithMember(schema: Schema, slots: seq<Slot>, i: nat, s: Slot): (r: seq<Slot>)
    requires i < |slots| == |schema.fields|
    ensures |r| == |slots| && r[i] == s
  {
    (if schema.fields[i].htype.ONEOF? then ClearUnion(schema, slots, i) else slots)[i := s]
  }

  /** What the fields of a submessage make of it, if none that is required is missing. */
  lemma OneSub(schema: Schema, i: nat, ts: seq<Token>, slots: seq<Slot>)
    requires i < |slots| == |schema.fields| && slots[i].One? && schema.fields[i].ltype.SUBMESSAGE?
    requires !schema.fields[i].htype.REPEATED? && RequiredSeen(schema.fields[i].ltype.schema, ts)
    ensures var sub, v := schema.fields[i].ltype.schema, StartsFrom(schema.fields[i], slots[i]);
      ApplyAll(schema, [Single(i, Sub(ts))], slots) ==
        if !v.Msg? || |v.slots| != |sub.fields| then None
        else match ApplyAll(sub, ts, v.slots)
          case None => None
          case Some(r) => Some(WithMember(schema, slots, i, One(true, Msg(r))))
  {
    var f, v := schema.fields[i], StartsFrom(schema.fields[i], slots[i]);
    ApplyOne(schema, Single(i, Sub(ts)), slots);
    assert StartValue(f, slots[i]) == v;
    if v.Msg? && |v.slots| == |f.ltype.schema.fields| {
      assert Decoded(f.ltype.schema, ts, v.slots) == ApplyAll(f.ltype.schema, ts, v.slots);
    }
  }

  lemma SetTwice(schema: Schema, slots: seq<Slot>, i: nat, r: Slot, r': Slot)
    requires i < |slots| == |schema.fields|
    ensures WithMember(schema, WithMember(schema, slots, i, r), i, r') == WithMember(schema, slots, i, r')
  {
  }

  /** Entries of an array are appended, packed or one by one; there is no decoding beyond its storage. */
  lemma EntriesAreAppended(schema: Schema, i: nat, values: seq<Value>, slots: seq<Slot>)
    requires i < |slots| == |schema.fields| && schema.fields[i].htype.REPEATED? && slots[i].Many? && values != []
    ensures var r := if |slots[i].items| + |values| <= schema.fields[i].htype.arraySize
                     then Some(slots[i := Many(slots[i].items + values)]) else None;
      && ApplyToken(schema, Packed(i, values), slots) == r
      && (|values| == 1 ==> ApplyToken(schema, Single(i, Scalar(values[0])), slots) == r)
  {
    if |values| == 1 {
      assert values == [values[0]];
      assert ItemValue(schema.fields[i].ltype, Scalar(values[0]), DefaultValue(schema.fields[i])) == Some(values[0]);
    }
  }

  // ---------- Fields that another schema does not know ----------

  lemma ScalarAsRaw(t: LType, v: Value) returns (raw: Raw)
    requires Typed(t, v) && Fits(t, v) && ValidLType(t)
    ensures ValidRaw(raw) && RawWireType(raw) == WireType(t) && RawBytes(raw) == ScalarBytes(t, v)
  {
    match t
    case BOOL => raw := RawVarint(v.i);
    case VARINT(_) => raw := RawVarint(ToUnsigned(v.i));
    case UVARINT(_) => raw := RawVarint(v.i);
    case SVARINT(_) => raw := RawVarint(ZigZag(v.i));
    case FIXED32 => raw := Raw32(EncodeFixed(v.i, 4));
    case FIXED64 => raw := Raw64(EncodeFixed(v.i, 8));
    case SUBMESSAGE(_) =>
    case _ => raw := RawString(v.b);
  }

  lemma PayloadAsRaw(schema: Schema, t: Token) returns (raw: Raw)
    requires ValidSchema(schema) && ValidToken(schema, t) && |PayloadBytes(schema, t)| < TWO32
    ensures ValidRaw(raw) && RawWireType(raw) == TokenWireType(schema, t) && RawBytes(raw) == PayloadBytes(schema, t)
  {
    match t
    case Unknown(_, r) => raw := r;
    case Packed(i, values) => raw := RawString(ScalarsBytes(schema.fields[i].ltype, values));
    case Single(i, item) =>
      assert ValidField(schema.fields[i]);
      match item
      case Scalar(v) => raw := ScalarAsRaw(schema.fields[i].ltype, v);
      case Sub(tokens) => raw := RawString(TokensBytes(schema.fields[i].ltype.schema, tokens));
  }

  /** Whatever one schema writes, another that lacks the field skips as a whole: its bytes are those of an unknown field
      with the same number. */
  lemma UnknownElsewhere(schema: Schema, t: Token, other: Schema) returns (raw: Raw)
    requires ValidSchema(schema) && ValidToken(schema, t) && |PayloadBytes(schema, t)| < TWO32
    requires forall f :: f in other.fields ==> f.tag != TokenTag(schema, t)
    ensures ValidToken(other, Unknown(TokenTag(schema, t), raw))
    ensures TokenBytes(other, Unknown(TokenTag(schema, t), raw)) == TokenBytes(schema, t)
  {
    raw := PayloadAsRaw(schema, t);
    if !t.Unknown? { assert ValidField(schema.fields[t.field]); }
    assert PayloadBytes(other, Unknown(TokenTag(schema, t), raw)) == RawBytes(raw);
  }
}
