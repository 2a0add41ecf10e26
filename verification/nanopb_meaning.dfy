/** What a sequence of tokens does to a struct, which tokens a struct becomes, and that the one undoes the
    other. */
module PbMeaning {
  import opened Bytes
  import opened PbMessage
  import opened Wrappers
  import Iter = PbFieldIter

  // ---------- What decoding means ----------

  /** Writing one member of a union takes the others away. */
  function ClearUnion(schema: Schema, slots: seq<Slot>, i: nat): (r: seq<Slot>)
    requires i < |slots| == |schema.fields|
    ensures |r| == |slots|
  {
    seq(|slots|, j requires 0 <= j < |slots| =>
      if j != i && schema.fields[j].htype == schema.fields[i].htype then DefaultSlot(schema.fields[j]) else slots[j])
  }

  /** The value a submessage starts from: what is there, or defaults when the union held another member. */
  function StartValue(f: Field, s: Slot): Value
    requires s.One?
  {
    if f.htype.ONEOF? && !s.has then DefaultValue(f) else s.value
  }

  /** A value put where `current` is.  None: decoding fails. */
  ghost function ItemValue(t: LType, item: Item, current: Value): Option<Value>
    decreases item
  {
    match item
    case Scalar(v) => Some(v)
    case Sub(tokens) =>
      if !t.SUBMESSAGE? || !current.Msg? || |current.slots| != |t.schema.fields| then None
      else
        match Decoded(t.schema, tokens, current.slots)
        case None => None
        case Some(slots) => Some(Msg(slots))
  }

  ghost function ApplyToken(schema: Schema, t: Token, slots: seq<Slot>): (r: Option<seq<Slot>>)
    requires |slots| == |schema.fields|
    ensures r.Some? ==> |r.value| == |slots|
    decreases t
  {
    match t
    case Unknown(_, _) => Some(slots)
    case Packed(i, values) =>
      if i >= |slots| || !slots[i].Many? || !schema.fields[i].htype.REPEATED? then None
      else if values != [] && |slots[i].items| + |values| > schema.fields[i].htype.arraySize then None
      else Some(slots[i := Many(slots[i].items + values)])
    case Single(i, item) =>
      if i >= |slots| then None
      else
        var f, s := schema.fields[i], slots[i];
        if f.htype.REPEATED? then
          if !s.Many? || |s.items| >= f.htype.arraySize then None
          else
            match ItemValue(f.ltype, item, DefaultValue(f))
            case None => None
            case Some(v) => Some(slots[i := Many(s.items + [v])])
        else if s.Many? then None
        else
          match ItemValue(f.ltype, item, StartValue(f, s))
          case None => None
          case Some(v) =>
            var cleared := if f.htype.ONEOF? then ClearUnion(schema, slots, i) else slots;
            Some(cleared[i := One(true, v)])
  }

  /** All tokens, in order: later values replace earlier ones, arrays grow, submessages merge. */
  ghost function ApplyAll(schema: Schema, ts: seq<Token>, slots: seq<Slot>): (r: Option<seq<Slot>>)
    requires |slots| == |schema.fields|
    ensures r.Some? ==> |r.value| == |slots|
    decreases ts, 0
  {
    if ts == [] then Some(slots)
    else
      match ApplyToken(schema, ts[0], slots)
      case None => None
      case Some(next) => ApplyAll(schema, ts[1..], next)
  }

  /** The fields for which there is a token. */
  function SeenFields(ts: seq<Token>): set<nat> {
    if ts == [] then {} else SeenField(ts[0]) + SeenFields(ts[1..])
  }

  function SeenField(t: Token): set<nat> {
    if t.Unknown? then {} else {t.field}
  }

  /** None of the required fields, as far as they are tracked, is missing. */
  ghost predicate RequiredSeen(schema: Schema, ts: seq<Token>) {
    Iter.AllSeen(Describe(schema), SeenFields(ts))
  }

  /** The struct after decoding `ts` into `slots`.  None: decoding fails. */
  ghost function Decoded(schema: Schema, ts: seq<Token>, slots: seq<Slot>): (r: Option<seq<Slot>>)
    requires |slots| == |schema.fields|
    ensures r.Some? ==> |r.value| == |slots|
    decreases ts, 1
  {
    if RequiredSeen(schema, ts) then ApplyAll(schema, ts, slots) else None
  }

  lemma {:induction false} ApplyAppend(schema: Schema, a: seq<Token>, b: seq<Token>, slots: seq<Slot>)
    requires |slots| == |schema.fields|
    ensures ApplyAll(schema, a + b, slots) ==
      match ApplyAll(schema, a, slots) case None => None case Some(mid) => ApplyAll(schema, b, mid)
    decreases |a|
  {
    if a == [] {
      assert a + b == b;
    } else {
      assert (a + b)[1..] == a[1..] + b;
      match ApplyToken(schema, a[0], slots)
      case None =>
      case Some(next) => ApplyAppend(schema, a[1..], b, next);
    }
  }

  lemma {:induction false} SeenAppend(a: seq<Token>, b: seq<Token>)
    ensures SeenFields(a + b) == SeenFields(a) + SeenFields(b)
  {
    if a == [] {
      assert a + b == b;
    } else {
      assert (a + b)[1..] == a[1..] + b;
      SeenAppend(a[1..], b);
    }
  }

  lemma {:induction false} BytesAppend(schema: Schema, a: seq<Token>, b: seq<Token>)
    requires ValidTokens(schema, a) && ValidTokens(schema, b)
    ensures ValidTokens(schema, a + b)
    ensures TokensBytes(schema, a + b) == TokensBytes(schema, a) + TokensBytes(schema, b)
    decreases |a|
  {
    if a == [] {
      assert a + b == b;
    } else {
      assert (a + b)[1..] == a[1..] + b;
      BytesAppend(schema, a[1..], b);
      Regroup(TokenBytes(schema, a[0]), TokensBytes(schema, a[1..]), TokensBytes(schema, b));
    }
  }

  // ---------- What encoding writes ----------

  function ItemOf(t: LType, v: Value, pack: bool): Item
    decreases t, 2, 0
  {
    if t.SUBMESSAGE? then
      if v.Msg? && |v.slots| == |t.schema.fields| then Sub(TokensOf(t.schema, v.slots, pack)) else Sub([])
    else Scalar(v)
  }

  function ArrayTokens(f: Field, i: nat, items: seq<Value>, pack: bool): (ts: seq<Token>)
    decreases f, 1, |items|
  {
    if items == [] then []
    else
      var k := |items| - 1;
      ArrayTokens(f, i, items[..k], pack) + [Single(i, ItemOf(f.ltype, items[k], pack))]
  }

  /** The tokens of field number `i`; arrays of numbers are packed unless PB_ENCODE_ARRAYS_UNPACKED. */
  function FieldTokens(f: Field, i: nat, s: Slot, pack: bool): seq<Token>
    decreases f, 2, 0
  {
    if s.Many? then
      if s.items == [] then []
      else if pack && IsPackable(f.ltype) then [Packed(i, s.items)]
      else ArrayTokens(f, i, s.items, pack)
    else if Present(f, s) then [Single(i, ItemOf(f.ltype, s.value, pack))]
    else []
  }

  /** The tokens of the first `n` fields. */
  function FieldsTokens(schema: Schema, slots: seq<Slot>, n: nat, pack: bool): seq<Token>
    requires n <= |slots| == |schema.fields|
    decreases schema, 1, n
  {
    if n == 0 then []
    else FieldsTokens(schema, slots, n - 1, pack) + FieldTokens(schema.fields[n - 1], n - 1, slots[n - 1], pack)
  }

  function TokensOf(schema: Schema, slots: seq<Slot>, pack: bool): seq<Token>
    requires |slots| == |schema.fields|
    decreases schema, 2, 0
  {
    FieldsTokens(schema, slots, |slots|, pack)
  }

  // ---------- What can be encoded ----------

  /** No array is longer than its storage, no byte string than its capacity. */
  ghost predicate EncodableValue(t: LType, v: Value)
    decreases t, 0
  {
    if t.SUBMESSAGE? then v.Msg? && Encodable(t.schema, v.slots) else Fits(t, v)
  }

  ghost predicate EncodableSlot(f: Field, s: Slot)
    decreases f, 0
  {
    if s.Many? then
      && (f.htype.REPEATED? ==> |s.items| <= f.htype.arraySize)
      && forall k :: 0 <= k < |s.items| ==> EncodableValue(f.ltype, s.items[k])
    else Present(f, s) ==> EncodableValue(f.ltype, s.value)
  }

  ghost predicate Encodable(schema: Schema, slots: seq<Slot>)
    decreases schema, 0
  {
    |slots| == |schema.fields| && forall i :: 0 <= i < |slots| ==> EncodableSlot(schema.fields[i], slots[i])
  }

  // ---------- A message with everything that is not written set to its default ----------

  function NormalValue(t: LType, v: Value): Value
    decreases t, 0
  {
    if t.SUBMESSAGE? && v.Msg? && |v.slots| == |t.schema.fields| then Msg(Normal(t.schema, v.slots)) else v
  }

  function NormalSlot(f: Field, s: Slot): Slot
    decreases f, 0
  {
    if s.Many? then Many(seq(|s.items|, k requires 0 <= k < |s.items| => NormalValue(f.ltype, s.items[k])))
    else if Present(f, s) then One(true, NormalValue(f.ltype, s.value))
    else DefaultSlot(f)
  }

  function Normal(schema: Schema, slots: seq<Slot>): (r: seq<Slot>)
    requires |slots| == |schema.fields|
    ensures |r| == |slots|
    decreases schema, 0
  {
    seq(|slots|, i requires 0 <= i < |slots| => NormalSlot(schema.fields[i], slots[i]))
  }

  // ---------- The tokens of a message are well-formed ----------

  lemma {:induction false} ItemValid(t: LType, v: Value, pack: bool)
    requires ValidLType(t) && ValidValue(t, v) && EncodableValue(t, v)
    ensures ValidItem(t, ItemOf(t, v, pack))
    decreases t, 2, 0
  {
    if t.SUBMESSAGE? {
      TokensValid(t.schema, v.slots, pack);
    }
  }

  lemma {:induction false} ArrayValid(schema: Schema, i: nat, items: seq<Value>, pack: bool)
    requires i < |schema.fields| && ValidLType(schema.fields[i].ltype)
    requires forall k :: 0 <= k < |items| ==>
      ValidValue(schema.fields[i].ltype, items[k]) && EncodableValue(schema.fields[i].ltype, items[k])
    ensures ValidTokens(schema, ArrayTokens(schema.fields[i], i, items, pack))
    decreases schema, 0, |items|
  {
    if items != [] {
      var k := |items| - 1;
      ArrayValid(schema, i, items[..k], pack);
      ItemValid(schema.fields[i].ltype, items[k], pack);
    }
  }

  lemma {:induction false} FieldsValid(schema: Schema, slots: seq<Slot>, n: nat, pack: bool)
    requires ValidSchema(schema) && ValidMessage(schema, slots) && Encodable(schema, slots) && n <= |slots|
    ensures ValidTokens(schema, FieldsTokens(schema, slots, n, pack))
    decreases schema, 1, n
  {
    if n > 0 {
      FieldsValid(schema, slots, n - 1, pack);
      var f, s := schema.fields[n - 1], slots[n - 1];
      assert ValidField(f) && ValidSlot(f, s) && EncodableSlot(f, s);
      if s.Many? {
        if !(pack && IsPackable(f.ltype)) { ArrayValid(schema, n - 1, s.items, pack); }
      } else if Present(f, s) {
        ItemValid(f.ltype, s.value, pack);
      }
    }
  }

  lemma {:induction false} TokensValid(schema: Schema, slots: seq<Slot>, pack: bool)
    requires ValidSchema(schema) && ValidMessage(schema, slots) && Encodable(schema, slots)
    ensures ValidTokens(schema, TokensOf(schema, slots, pack))
    decreases schema, 2, 0
  {
    FieldsValid(schema, slots, |slots|, pack);
  }

  // ---------- Decoding what a message becomes gives the message back ----------

  lemma {:induction false} ItemRoundTrip(f: Field, v: Value, pack: bool)
    requires ValidField(f) && ValidValue(f.ltype, v) && EncodableValue(f.ltype, v)
    ensures ItemValue(f.ltype, ItemOf(f.ltype, v, pack), DefaultValue(f)) == Some(NormalValue(f.ltype, v))
    decreases f, 0, 0
  {
    if f.ltype.SUBMESSAGE? {
      MessageRoundTrip(f.ltype.schema, v.slots, pack);
    }
  }

  lemma {:induction false} ArrayRoundTrip(schema: Schema, i: nat, items: seq<Value>, pack: bool, state: seq<Slot>)
    requires ValidSchema(schema) && i < |state| == |schema.fields|
    requires schema.fields[i].htype.REPEATED? && |items| <= schema.fields[i].htype.arraySize && state[i] == Many([])
    requires forall k :: 0 <= k < |items| ==>
      ValidValue(schema.fields[i].ltype, items[k]) && EncodableValue(schema.fields[i].ltype, items[k])
    ensures ApplyAll(schema, ArrayTokens(schema.fields[i], i, items, pack), state) ==
      Some(state[i := NormalSlot(schema.fields[i], Many(items))])
    decreases schema, 0, |items|
  {
    var f := schema.fields[i];
    if items == [] {
      assert NormalSlot(f, Many(items)) == Many([]);
      assert state == state[i := Many([])];
    } else {
      var k := |items| - 1;
      ArrayRoundTrip(schema, i, items[..k], pack, state);
      ItemRoundTrip(f, items[k], pack);
      var mid := state[i := NormalSlot(f, Many(items[..k]))];
      ApplyAppend(schema, ArrayTokens(f, i, items[..k], pack), [Single(i, ItemOf(f.ltype, items[k], pack))], state);
      ApplyOne(schema, Single(i, ItemOf(f.ltype, items[k], pack)), mid);
      assert mid[i].items + [NormalValue(f.ltype, items[k])] == NormalSlot(f, Many(items)).items;
      assert mid[i := NormalSlot(f, Many(items))] == state[i := NormalSlot(f, Many(items))];
    }
  }

  lemma ApplyOne(schema: Schema, t: Token, slots: seq<Slot>)
    requires |slots| == |schema.fields|
    ensures ApplyAll(schema, [t], slots) == ApplyToken(schema, t, slots)
  {
    match ApplyToken(schema, t, slots)
    case None =>
    case Some(next) => assert ApplyAll(schema, [], next) == Some(next);
  }

  /** Fields before `n` have been decoded, the others have their defaults. */
  function Mixed(schema: Schema, slots: seq<Slot>, n: nat): (r: seq<Slot>)
    requires n <= |slots| == |schema.fields|
    ensures |r| == |slots|
  {
    Normal(schema, slots)[..n] + Defaults(schema)[n..]
  }

  /** When a member of a union is written, no other one of it is there to be taken away. */
  lemma NothingToClear(schema: Schema, slots: seq<Slot>, n: nat)
    requires ValidMessage(schema, slots) && n < |slots|
    requires schema.fields[n].htype.ONEOF? && slots[n].One? && slots[n].has
    ensures ClearUnion(schema, Mixed(schema, slots, n), n) == Mixed(schema, slots, n)
  {
    forall j | 0 <= j < |slots| && j != n && schema.fields[j].htype == schema.fields[n].htype
      ensures Mixed(schema, slots, n)[j] == DefaultSlot(schema.fields[j])
    {
      assert ValidSlot(schema.fields[j], slots[j]);
      if j < n {
        assert Exclusive(schema, slots, j, n);
        assert !Present(schema.fields[j], slots[j]);
        assert Normal(schema, slots)[j] == DefaultSlot(schema.fields[j]);
      } else {
        assert Defaults(schema)[j] == DefaultSlot(schema.fields[j]);
      }
    }
  }

  lemma {:induction false} FieldRoundTrip(schema: Schema, slots: seq<Slot>, n: nat, pack: bool)
    requires ValidSchema(schema) && ValidMessage(schema, slots) && Encodable(schema, slots) && n < |slots|
    ensures ApplyAll(schema, FieldTokens(schema.fields[n], n, slots[n], pack), Mixed(schema, slots, n)) ==
      Some(Mixed(schema, slots, n + 1))
    decreases schema, 1, 0
  {
    var f, s, state := schema.fields[n], slots[n], Mixed(schema, slots, n);
    assert ValidField(f) && ValidSlot(f, s) && EncodableSlot(f, s);
    assert state[n] == DefaultSlot(f);
    assert Mixed(schema, slots, n + 1) == state[n := NormalSlot(f, s)];
    if s.Many? {
      if s.items != [] && pack && IsPackable(f.ltype) {
        ApplyOne(schema, Packed(n, s.items), state);
        assert NormalSlot(f, s).items == s.items;
        assert [] + s.items == s.items;
      } else {
        ArrayRoundTrip(schema, n, s.items, pack, state);
      }
    } else if Present(f, s) {
      ItemRoundTrip(f, s.value, pack);
      ApplyOne(schema, Single(n, ItemOf(f.ltype, s.value, pack)), state);
      if f.htype.ONEOF? { NothingToClear(schema, slots, n); }
    } else {
      assert state == state[n := NormalSlot(f, s)];
    }
  }

  lemma {:induction false} FieldsRoundTrip(schema: Schema, slots: seq<Slot>, n: nat, pack: bool)
    requires ValidSchema(schema) && ValidMessage(schema, slots) && Encodable(schema, slots) && n <= |slots|
    ensures ApplyAll(schema, FieldsTokens(schema, slots, n, pack), Defaults(schema)) == Some(Mixed(schema, slots, n))
    decreases schema, 2, n
  {
    if n == 0 {
      assert Mixed(schema, slots, 0) == Defaults(schema);
    } else {
      FieldsRoundTrip(schema, slots, n - 1, pack);
      FieldRoundTrip(schema, slots, n - 1, pack);
      ApplyAppend(schema, FieldsTokens(schema, slots, n - 1, pack),
                  FieldTokens(schema.fields[n - 1], n - 1, slots[n - 1], pack), Defaults(schema));
    }
  }

  lemma {:induction false} RequiredWritten(schema: Schema, slots: seq<Slot>, n: nat, i: nat, pack: bool)
    requires ValidMessage(schema, slots) && i < n <= |slots| && schema.fields[i].htype.REQUIRED?
    ensures i in SeenFields(FieldsTokens(schema, slots, n, pack))
    decreases n
  {
    var last := FieldTokens(schema.fields[n - 1], n - 1, slots[n - 1], pack);
    SeenAppend(FieldsTokens(schema, slots, n - 1, pack), last);
    if i < n - 1 {
      RequiredWritten(schema, slots, n - 1, i, pack);
    } else {
      assert ValidSlot(schema.fields[i], slots[i]);
      assert last[0] == Single(i, ItemOf(schema.fields[i].ltype, slots[i].value, pack));
      assert SeenFields(last) == SeenField(last[0]) + SeenFields(last[1..]);
    }
  }

  /** The tokens of a message, decoded into a freshly initialised struct, give its present fields back,
      and defaults for the others. */
  lemma {:induction false} MessageRoundTrip(schema: Schema, slots: seq<Slot>, pack: bool)
    requires ValidSchema(schema) && ValidMessage(schema, slots) && Encodable(schema, slots)
    ensures Decoded(schema, TokensOf(schema, slots, pack), Defaults(schema)) == Some(Normal(schema, slots))
    decreases schema, 3, 0
  {
    FieldsRoundTrip(schema, slots, |slots|, pack);
    assert Mixed(schema, slots, |slots|) == Normal(schema, slots);
    var d := Describe(schema);
    forall i: nat | Iter.Required(d, i) && Iter.RequiredBefore(d, i) < Iter.PB_MAX_REQUIRED_FIELDS
      ensures i in SeenFields(TokensOf(schema, slots, pack))
    {
      assert schema.fields[i].htype.REQUIRED?;
      RequiredWritten(schema, slots, |slots|, i, pack);
    }
  }

  // ---------- What is decoded is encoded again to the same tokens ----------

  /** Defaults are no less zero than what they stand for. */
  lemma {:induction false} DefaultIsZero(f: Field, v: Value)
    requires ValidField(f) && f.htype.SINGULAR? && IsZero(f.ltype, v)
    ensures IsZero(f.ltype, DefaultValue(f))
    decreases f
  {
    if f.ltype.SUBMESSAGE? {
      var schema := f.ltype.schema;
      assert ValidLType(f.ltype) && ValidSchema(schema) && AllZero(schema, v.slots);
      forall i | 0 <= i < |schema.fields| ensures IsZeroSlot(schema.fields[i], Defaults(schema)[i]) {
        var g := schema.fields[i];
        assert ValidField(g) && IsZeroSlot(g, v.slots[i]);
        if g.htype.SINGULAR? { DefaultIsZero(g, v.slots[i].value); }
      }
    }
  }

  /** Setting absent fields to their defaults makes nothing zero that was not. */
  lemma {:induction false} NormalNotZero(t: LType, v: Value)
    requires ValidValue(t, v) && IsZero(t, NormalValue(t, v))
    ensures IsZero(t, v)
    decreases t
  {
    if t.SUBMESSAGE? {
      var schema := t.schema;
      assert ValidMessage(schema, v.slots) && AllZero(schema, Normal(schema, v.slots));
      forall i | 0 <= i < |v.slots| ensures IsZeroSlot(schema.fields[i], v.slots[i]) {
        var f, s := schema.fields[i], v.slots[i];
        assert ValidSlot(f, s) && IsZeroSlot(f, Normal(schema, v.slots)[i]);
        assert Normal(schema, v.slots)[i] == NormalSlot(f, s);
        if f.htype.SINGULAR? && !IsZero(f.ltype, s.value) {
          NormalNotZero(f.ltype, s.value);
        }
      }
    }
  }

  lemma {:induction false} ItemOfNormal(t: LType, v: Value, pack: bool)
    requires ValidLType(t) && ValidValue(t, v)
    ensures ItemOf(t, NormalValue(t, v), pack) == ItemOf(t, v, pack)
    decreases t, 0, 0
  {
    if t.SUBMESSAGE? {
      SameTokens(t.schema, v.slots, |v.slots|, pack);
    }
  }

  lemma {:induction false} SameArray(f: Field, i: nat, items: seq<Value>, pack: bool)
    requires ValidField(f) && forall k :: 0 <= k < |items| ==> ValidValue(f.ltype, items[k])
    ensures ArrayTokens(f, i, NormalSlot(f, Many(items)).items, pack) == ArrayTokens(f, i, items, pack)
    decreases f, 1, |items|
  {
    if items != [] {
      var k := |items| - 1;
      SameArray(f, i, items[..k], pack);
      ItemOfNormal(f.ltype, items[k], pack);
      assert NormalSlot(f, Many(items)).items[..k] == NormalSlot(f, Many(items[..k])).items;
    }
  }

  lemma {:induction false} SameField(f: Field, i: nat, s: Slot, pack: bool)
    requires ValidField(f) && ValidSlot(f, s)
    ensures FieldTokens(f, i, NormalSlot(f, s), pack) == FieldTokens(f, i, s, pack)
    decreases f, 2, 0
  {
    if s.Many? {
      SameArray(f, i, s.items, pack);
      if IsPackable(f.ltype) { assert NormalSlot(f, s).items == s.items; }
    } else if Present(f, s) {
      ItemOfNormal(f.ltype, s.value, pack);
      if f.htype.SINGULAR? && IsZero(f.ltype, NormalValue(f.ltype, s.value)) {
        NormalNotZero(f.ltype, s.value);
      }
    } else if f.htype.SINGULAR? {
      DefaultIsZero(f, s.value);
    }
  }

  lemma {:induction false} SameTokens(schema: Schema, slots: seq<Slot>, n: nat, pack: bool)
    requires ValidSchema(schema) && ValidMessage(schema, slots) && n <= |slots|
    ensures FieldsTokens(schema, Normal(schema, slots), n, pack) == FieldsTokens(schema, slots, n, pack)
    decreases schema, 3, n
  {
    if n > 0 {
      SameTokens(schema, slots, n - 1, pack);
      assert ValidField(schema.fields[n - 1]) && ValidSlot(schema.fields[n - 1], slots[n - 1]);
      SameField(schema.fields[n - 1], n - 1, slots[n - 1], pack);
    }
  }

  /** A decoded message has exactly the present fields of the one that was encoded: it is written as the
      same tokens. */
  lemma Reencoding(schema: Schema, slots: seq<Slot>, pack: bool)
    requires ValidSchema(schema) && ValidMessage(schema, slots)
    ensures TokensOf(schema, Normal(schema, slots), pack) == TokensOf(schema, slots, pack)
  {
    SameTokens(schema, slots, |slots|, pack);
  }
}
