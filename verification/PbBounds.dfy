/** What the decoder can leave in a struct, whatever bytes it was given, and what encoding that struct again yields. */
module PbBounds {
  import opened Bits
  import opened Bytes
  import opened PbTypes
  import opened PbEncode
  import opened PbDecode
  import opened PbRoundTrip
  import Varint

  // ----- Structs within their fields' bounds -----

  /** Integers in range, buffers within their field (an empty one always is), nested structs in turn. */
  predicate FitsValue(f: Field, v: Value)
    decreases f, 0
  {
    match f.ltype
    case Varint | Svarint => v.Num? && InSigned(v.n, f.dataSize)
    case Uvarint => v.Num? && InUnsigned(v.n, f.dataSize)
    case Fixed32 => v.Num? && InUnsigned(v.n, 4)
    case Fixed64 => v.Num? && InUnsigned(v.n, 8)
    case ByteArray => v.Buf? && (v.b == [] || |v.b| + BYTES_HEADER <= f.dataSize)
    case Text => v.Buf? && (v.b == [] || |v.b| < f.dataSize)
    case FixedBytes => v.Buf? && |v.b| == f.dataSize
    case Submessage(fs) => v.Sub? && Fits(fs, v.m)
  }

  /** Arrays hold at most as many entries as their field. */
  predicate FitsItems(f: Field, items: seq<Value>)
    decreases f, 1
  {
    |items| <= f.arraySize && forall i | 0 <= i < |items| :: FitsValue(f, items[i])
  }

  predicate FitsSlot(f: Field, s: Slot)
    decreases f, 2
  {
    match f.htype
    case Optional => s.Opt? && FitsValue(f, s.v)
    case Repeated | FixedCount => s.Many? && FitsItems(f, s.items)
    case _ => s.One? && FitsValue(f, s.v)
  }

  predicate IsMember(f: Field, union: nat, tag: nat) {
    f.htype == Oneof(union) && f.tag == tag
  }

  /** A which_ tag names a field of its union. */
  predicate WhichKnown(fs: seq<Field>, which: map<nat, nat>) {
    forall u | u in which :: exists i | 0 <= i < |fs| :: IsMember(fs[i], u, which[u])
  }

  predicate Fits(fs: seq<Field>, m: Message)
    decreases fs, 3
  {
    && |m.slots| == |fs|
    && (forall i | 0 <= i < |fs| :: FitsSlot(fs[i], m.slots[i]))
    && WhichKnown(fs, m.which)
  }

  /** The default values of the descriptor fit their fields. */
  predicate DefaultFits(f: Field)
    decreases f, 0
  {
    match f.ltype
    case Submessage(fs) => DefaultsFit(fs)
    case _ => f.default.Some? ==> FitsValue(f, f.default.value)
  }

  predicate DefaultsFit(fs: seq<Field>)
    decreases fs, 1
  {
    forall i | 0 <= i < |fs| :: DefaultFits(fs[i])
  }

  lemma {:induction false} DefaultValueFits(f: Field)
    requires DefaultFits(f)
    ensures FitsValue(f, DefaultValue(f))
    decreases f, 0
  {
    if f.ltype.Submessage? {
      DefaultMessageFits(f.ltype.fields);
    }
  }

  lemma {:induction false} DefaultMessageFits(fs: seq<Field>)
    requires DefaultsFit(fs)
    ensures Fits(fs, Defaults(fs))
    decreases fs, 1
  {
    forall i | 0 <= i < |fs| ensures FitsSlot(fs[i], Defaults(fs).slots[i]) {
      DefaultValueFits(fs[i]);
    }
  }

  // ----- Decoding keeps the bounds -----

  lemma {:induction false} LittleEndianBound(bs: seq<byte>)
    ensures FromLittleEndian(bs) < ShiftLeft(1, 8 * |bs|)
  {
    if bs != [] {
      LittleEndianBound(bs[1..]);
      ShiftLeftGroup(1, 8 * |bs| - 8);
      assert ShiftLeft(1, 8 * |bs|) == 2 * ShiftLeft(1, 8 * |bs| - 1);
    }
  }

  lemma ScalarFits(f: Field, bs: seq<byte>)
    requires !f.ltype.Submessage? && DecodeScalar(f, bs).Got?
    ensures FitsValue(f, DecodeScalar(f, bs).val)
  {
    Powers();
    if f.ltype.Fixed32? {
      LittleEndianBound(bs[..4]);
    } else if f.ltype.Fixed64? {
      LittleEndianBound(bs[..8]);
    }
  }

  lemma PutFits(f: Field, items: seq<Value>, k: nat, v: Value)
    requires FitsItems(f, items) && FitsValue(f, v) && k < f.arraySize
    ensures FitsItems(f, Put(items, k, v))
  {
  }

  lemma {:induction false} PackedFits(f: Field, items: seq<Value>, k: nat, bs: seq<byte>)
    requires !f.ltype.Submessage? && FitsItems(f, items) && DecodePacked(f, items, k, bs).Some?
    ensures FitsItems(f, DecodePacked(f, items, k, bs).value.0)
    decreases |bs|
  {
    hide FitsItems, FitsValue, DecodeScalar, Put;
    if bs != [] {
      var p := DecodeScalar(f, bs);
      ScalarFits(f, bs);
      PutFits(f, items, k, p.val);
      PackedFits(f, Put(items, k, p.val), k + 1, bs[p.n..]);
    }
  }

  lemma {:induction false} ValueFits(f: Field, stored: Value, bs: seq<byte>)
    requires DefaultFits(f) && (stored.Sub? ==> FitsValue(f, stored))
    requires DecodeValue(f, stored, bs).Got?
    ensures FitsValue(f, DecodeValue(f, stored, bs).val)
    decreases |bs|, 1
  {
    if f.ltype.Submessage? {
      DefaultMessageFits(f.ltype.fields);
      DecodeFits(f.ltype.fields, Initial(f, stored), Delimited(bs).val);
    } else {
      ScalarFits(f, bs);
    }
  }

  lemma {:induction false} ArrayFits(f: Field, items: seq<Value>, k: nat, wireType: nat, bs: seq<byte>)
    requires DefaultFits(f) && FitsItems(f, items) && DecodeArray(f, items, k, wireType, bs).Got?
    ensures FitsItems(f, DecodeArray(f, items, k, wireType, bs).val.0)
    decreases |bs|, 2
  {
    hide FitsItems, FitsValue, DefaultFits;
    if wireType == WT_STRING && Packable(f.ltype) {
      PackedFits(f, items, k, Delimited(bs).val);
    } else {
      ValueFits(f, Num(0), bs);
      PutFits(f, items, k, DecodeValue(f, Num(0), bs).val);
    }
  }

  lemma SetFits(fs: seq<Field>, st: State, i: nat, s: Slot)
    requires Fits(fs, st.msg) && i < |fs| && FitsSlot(fs[i], s)
    ensures Fits(fs, SetSlot(st, i, s).msg)
  {
  }

  lemma StoreFits(fs: seq<Field>, i: nat, st: State, v: Value)
    requires Fits(fs, st.msg) && i < |fs| && !fs[i].htype.Repeated? && !fs[i].htype.FixedCount? && FitsValue(fs[i], v)
    ensures Fits(fs, Store(fs[i], i, st, v).msg)
  {
    hide FitsValue;
    var f := fs[i];
    SetFits(fs, st, i, if f.htype.Optional? then Opt(true, v) else One(v));
    if f.htype.Oneof? {
      assert IsMember(f, f.htype.union, f.tag);
    }
  }

  lemma {:induction false} FieldFits(fs: seq<Field>, i: nat, wireType: nat, st: State, bs: seq<byte>)
    requires i < |fs| && DefaultsFit(fs) && Fits(fs, st.msg)
    requires DecodeField(fs, i, wireType, st, bs).Next?
    ensures Fits(fs, DecodeField(fs, i, wireType, st, bs).st.msg)
    decreases |bs|, 3
  {
    hide FitsValue, FitsItems, WhichKnown, DefaultFits, DecodeArray, DecodeValue;
    var f, s := fs[i], st.msg.slots[i];
    assert FitsSlot(f, s);
    if f.htype.Repeated? {
      ArrayFits(f, s.items, |s.items|, wireType, bs);
      SetFits(fs, st, i, Many(DecodeArray(f, s.items, |s.items|, wireType, bs).val.0));
    } else if f.htype.FixedCount? {
      var st1 := EnterFixed(fs, i, st).value;
      ArrayFits(f, s.items, st1.fixedCount, wireType, bs);
      SetFits(fs, st1, i, Many(DecodeArray(f, s.items, st1.fixedCount, wireType, bs).val.0));
    } else {
      DefaultValueFits(f);
      ValueFits(f, SlotOld(f, s), bs);
      StoreFits(fs, i, st, DecodeValue(f, SlotOld(f, s), bs).val);
    }
  }

  lemma {:induction false} StepFits(fs: seq<Field>, st: State, bs: seq<byte>)
    requires bs != [] && DefaultsFit(fs) && Fits(fs, st.msg) && Step(fs, st, bs).Next?
    ensures Fits(fs, Step(fs, st, bs).st.msg)
    decreases |bs|, 0
  {
    hide Fits, DefaultsFit, DecodeField;
    var key := Varint.Decode32(bs);
    var i := Find(fs, key.val / 8);
    if i < |fs| {
      FieldFits(fs, i, key.val % 8, st, bs[key.n..]);
    }
  }

  lemma {:induction false} RunFits(fs: seq<Field>, st: State, bs: seq<byte>)
    requires DefaultsFit(fs) && Fits(fs, st.msg) && Run(fs, st, bs).Ended?
    ensures Fits(fs, Run(fs, st, bs).st.msg)
    decreases |bs|, 1
  {
    hide Fits, DefaultsFit, Step;
    if bs != [] && Step(fs, st, bs).Next? {
      StepFits(fs, st, bs);
      RunFits(fs, Step(fs, st, bs).st, bs[Step(fs, st, bs).n..]);
    }
  }

  /** Whatever bytes are decoded into a struct that fits its descriptor, the result fits it, at every depth. */
  lemma {:induction false} DecodeFits(fs: seq<Field>, m: Message, bs: seq<byte>)
    requires DefaultsFit(fs) && Fits(fs, m) && Decode(fs, m, bs).Some?
    ensures Fits(fs, Decode(fs, m, bs).value)
    decreases |bs|, 2
  {
    hide Fits, DefaultsFit, Run;
    RunFits(fs, Start(m), bs);
  }

  // ----- Encoding again what was decoded -----

  /** No array of fixed count, whose absence a struct cannot show, and room for an empty buffer, at every depth. */
  predicate PlainField(f: Field)
    decreases f, 0
  {
    && !f.htype.FixedCount?
    && (f.ltype.ByteArray? ==> f.dataSize >= BYTES_HEADER)
    && (f.ltype.Text? ==> f.dataSize >= 1)
    && (f.ltype.Submessage? ==> Plain(f.ltype.fields))
  }

  predicate Plain(fs: seq<Field>)
    decreases fs, 1
  {
    forall i | 0 <= i < |fs| :: PlainField(fs[i])
  }

  lemma {:induction false} ValueSound(f: Field, v: Value)
    requires WellFormedField(f) && PlainField(f) && FitsValue(f, v)
    ensures HasType(f, v) && EncodableValue(f, v) && TextFits(f, v)
    decreases f, 0
  {
    if f.ltype.Submessage? {
      FitsIsSound(f.ltype.fields, v.m);
    }
  }

  lemma {:induction false} SlotSound(f: Field, s: Slot, which: map<nat, nat>)
    requires WellFormedField(f) && PlainField(f) && FitsSlot(f, s)
    ensures SlotHasType(f, s) && EncodableSlot(f, s, which) && SlotFits(f, s, which)
    decreases f, 1
  {
    hide HasType, EncodableValue, TextFits, FitsValue;
    if s.Many? {
      forall i | 0 <= i < |s.items|
        ensures HasType(f, s.items[i]) && EncodableValue(f, s.items[i]) && TextFits(f, s.items[i])
      {
        ValueSound(f, s.items[i]);
      }
    } else {
      ValueSound(f, s.v);
    }
  }

  /** A struct within its bounds is typed, can be encoded, and its texts are terminated. */
  lemma {:induction false} FitsIsSound(fs: seq<Field>, m: Message)
    requires WellFormed(fs) && Plain(fs) && Fits(fs, m)
    ensures Typed(fs, m) && Encodable(fs, m) && TextsFit(fs, m)
    decreases fs, 2
  {
    hide SlotHasType, EncodableSlot, SlotFits, FitsSlot;
    forall i | 0 <= i < |fs|
      ensures SlotHasType(fs[i], m.slots[i]) && EncodableSlot(fs[i], m.slots[i], m.which)
      ensures SlotFits(fs[i], m.slots[i], m.which)
    {
      SlotSound(fs[i], m.slots[i], m.which);
    }
  }

  /** Whatever was decoded can be encoded again, and decoding that gives the normal form of what was decoded. */
  lemma Reencoded(fs: seq<Field>, bs: seq<byte>)
    requires WellFormed(fs) && Plain(fs) && DefaultsFit(fs)
    requires Decode(fs, Defaults(fs), bs).Some? && PiecesShort(fs, Decode(fs, Defaults(fs), bs).value)
    ensures var m := Decode(fs, Defaults(fs), bs).value;
            EncodeMessage(fs, m).Some? && Decode(fs, Defaults(fs), EncodeMessage(fs, m).value) == Some(Normal(fs, m))
  {
    hide WellFormed, Plain, DefaultsFit, Fits, Typed, Encodable, TextsFit, Decode, EncodeMessage, PiecesShort;
    var m := Decode(fs, Defaults(fs), bs).value;
    DefaultMessageFits(fs);
    DecodeFits(fs, Defaults(fs), bs);
    FitsIsSound(fs, m);
    EncodesIffEncodable(fs, m);
    RoundTrip(fs, m);
  }

  // ----- The normal form is encoded alike -----

  lemma {:induction false} ContentOfContent(b: seq<byte>)
    ensures TextContent(TextContent(b)) == TextContent(b)
  {
    if b != [] && b[0] != 0 {
      ContentOfContent(b[1..]);
      assert TextContent(b)[1..] == TextContent(b[1..]);
    }
  }

  /** Fields without has_ flag have no default of their own, as proto3 has it, at every depth. */
  predicate Proto3Field(f: Field)
    decreases f, 0
  {
    && (f.htype.Singular? ==> f.default.None?)
    && (f.ltype.Submessage? ==> Proto3(f.ltype.fields))
  }

  predicate Proto3(fs: seq<Field>)
    decreases fs, 1
  {
    forall i | 0 <= i < |fs| :: Proto3Field(fs[i])
  }

  lemma {:induction false} NormalWhichValue(fs: seq<Field>, which: map<nat, nat>, i: nat, u: nat)
    requires i <= |fs|
    ensures Which(NormalWhich(fs, which, i), u) in {0, Which(which, u)}
    ensures (exists j | 0 <= j < i :: IsMember(fs[j], u, Which(which, u))) ==>
              Which(NormalWhich(fs, which, i), u) == Which(which, u)
  {
    if i != 0 {
      NormalWhichValue(fs, which, i - 1, u);
    }
  }

  lemma UnionKept(fs: seq<Field>, which: map<nat, nat>, i: nat)
    requires WellFormed(fs) && WhichKnown(fs, which) && i < |fs| && fs[i].htype.Oneof?
    ensures var u := fs[i].htype.union;
            && (Which(NormalWhich(fs, which, |fs|), u) == fs[i].tag <==> Which(which, u) == fs[i].tag)
            && (Which(NormalWhich(fs, which, |fs|), u) == 0 <==> Which(which, u) == 0)
  {
    var u := fs[i].htype.union;
    NormalWhichValue(fs, which, |fs|, u);
    assert WellFormedField(fs[i]);
    assert Which(which, u) == fs[i].tag ==> IsMember(fs[i], u, Which(which, u));
  }

  /** If some struct of a type is all default, the default struct is. */
  lemma {:induction false} DefaultValueIsDefault(f: Field, v: Value)
    requires (f.default.None? || f.ltype.Submessage?) && Proto3Field(f) && ValueIsDefault(f, v)
    ensures ValueIsDefault(f, DefaultValue(f))
    decreases f, 0
  {
    if f.ltype.Submessage? {
      DefaultsAreDefault(f.ltype.fields, v.m);
    }
  }

  lemma {:induction false} DefaultsAreDefault(fs: seq<Field>, m: Message)
    requires Proto3(fs) && MessageIsDefault(fs, m)
    ensures MessageIsDefault(fs, Defaults(fs))
    decreases fs, 1
  {
    forall i | 0 <= i < |fs| ensures SlotIsDefault(fs[i], DefaultSlot(fs[i]), map[]) {
      assert SlotIsDefault(fs[i], m.slots[i], m.which) && Proto3Field(fs[i]);
      if fs[i].htype.Singular? {
        DefaultValueIsDefault(fs[i], m.slots[i].v);
      }
    }
  }

  lemma {:induction false} NormalIsDefault(f: Field, v: Value)
    requires WellFormedField(f) && PlainField(f) && Proto3Field(f) && FitsValue(f, v)
    ensures ValueIsDefault(f, NormalValue(f, v)) <==> ValueIsDefault(f, v)
    decreases f, 0
  {
    if f.ltype.Submessage? {
      NormalMessageIsDefault(f.ltype.fields, v.m);
    } else if f.ltype.Text? {
      ContentOfContent(v.b);
    }
  }

  lemma {:induction false} NormalSlotIsDefault(fs: seq<Field>, m: Message, i: nat)
    requires WellFormed(fs) && Plain(fs) && Proto3(fs) && Fits(fs, m) && i < |fs|
    ensures var which := NormalWhich(fs, m.which, |fs|);
            var s := NormalSlot(fs[i], m.slots[i], m.which);
            && (SlotIsDefault(fs[i], s, which) <==> SlotIsDefault(fs[i], m.slots[i], m.which))
            && (!m.slots[i].Many? ==> (Present(fs[i], s, which) <==> Present(fs[i], m.slots[i], m.which)))
    decreases fs[i], 1
  {
    hide ValueIsDefault, FitsValue, NormalWhich, WhichKnown;
    var f, s := fs[i], m.slots[i];
    assert WellFormedField(f) && PlainField(f) && Proto3Field(f) && FitsSlot(f, s);
    if f.htype.Oneof? {
      UnionKept(fs, m.which, i);
    } else if f.htype.Singular? {
      NormalIsDefault(f, s.v);
      if ValueIsDefault(f, s.v) {
        DefaultValueIsDefault(f, s.v);
      }
    }
  }

  lemma {:induction false} NormalMessageIsDefault(fs: seq<Field>, m: Message)
    requires WellFormed(fs) && Plain(fs) && Proto3(fs) && Fits(fs, m)
    ensures MessageIsDefault(fs, Normal(fs, m)) <==> MessageIsDefault(fs, m)
    decreases fs, 2
  {
    hide SlotIsDefault, NormalSlot, WellFormed, Plain, Proto3, NormalWhich;
    forall i | 0 <= i < |fs|
      ensures SlotIsDefault(fs[i], Normal(fs, m).slots[i], Normal(fs, m).which)
              <==> SlotIsDefault(fs[i], m.slots[i], m.which)
    {
      NormalSlotIsDefault(fs, m, i);
    }
  }

  lemma {:induction false} ValueAlike(f: Field, v: Value)
    requires WellFormedField(f) && PlainField(f) && Proto3Field(f) && FitsValue(f, v)
    ensures EncodeValue(f, NormalValue(f, v)) == EncodeValue(f, v)
    decreases f, 0
  {
    if f.ltype.Submessage? {
      NormalEncodesAlike(f.ltype.fields, v.m);
    } else if f.ltype.Text? {
      ContentOfContent(v.b);
    }
  }

  lemma {:induction false} ItemsAlike(f: Field, items: seq<Value>)
    requires WellFormedField(f) && PlainField(f) && Proto3Field(f)
    requires forall i | 0 <= i < |items| :: FitsValue(f, items[i])
    ensures EncodePacked(f, NormalItems(f, items)) == EncodePacked(f, items)
    ensures EncodeUnpacked(f, NormalItems(f, items)) == EncodeUnpacked(f, items)
    decreases f, 1, items
  {
    hide EncodeValue, NormalValue, FitsValue;
    if items != [] {
      ValueAlike(f, items[0]);
      ItemsAlike(f, items[1..]);
      assert NormalItems(f, items)[1..] == NormalItems(f, items[1..]);
    }
  }

  lemma {:induction false} FieldAlike(fs: seq<Field>, m: Message, i: nat)
    requires WellFormed(fs) && Plain(fs) && Proto3(fs) && Fits(fs, m) && i < |fs|
    ensures EncodeField(fs[i], NormalSlot(fs[i], m.slots[i], m.which), NormalWhich(fs, m.which, |fs|))
         == EncodeField(fs[i], m.slots[i], m.which)
    decreases fs[i], 2
  {
    hide EncodeValue, EncodePacked, EncodeUnpacked, FitsValue, NormalValue, NormalWhich, Present, WhichKnown;
    var f, s := fs[i], m.slots[i];
    assert WellFormedField(f) && PlainField(f) && Proto3Field(f) && FitsSlot(f, s);
    NormalSlotIsDefault(fs, m, i);
    if s.Many? {
      ItemsAlike(f, s.items);
    } else if Present(f, s, m.which) {
      ValueAlike(f, s.v);
    }
  }

  lemma {:induction false} FieldsAlike(fs: seq<Field>, m: Message, i: nat)
    requires WellFormed(fs) && Plain(fs) && Proto3(fs) && Fits(fs, m) && i <= |fs|
    ensures EncodeFields(fs[i..], Normal(fs, m).slots[i..], Normal(fs, m).which)
         == EncodeFields(fs[i..], m.slots[i..], m.which)
    decreases fs, 3, |fs| - i
  {
    hide EncodeField, NormalSlot, NormalWhich, WellFormed, Plain, Proto3;
    if i < |fs| {
      FieldAlike(fs, m, i);
      FieldsAlike(fs, m, i + 1);
      assert fs[i..][1..] == fs[i + 1..] && m.slots[i..][1..] == m.slots[i + 1..];
      assert Normal(fs, m).slots[i..][1..] == Normal(fs, m).slots[i + 1..];
    }
  }

  /** A struct and its normal form have the same encoding: what normalizing forgets is never written. */
  lemma {:induction false} NormalEncodesAlike(fs: seq<Field>, m: Message)
    requires WellFormed(fs) && Plain(fs) && Proto3(fs) && Fits(fs, m)
    ensures EncodeMessage(fs, Normal(fs, m)) == EncodeMessage(fs, m)
    decreases fs, 4
  {
    FieldsAlike(fs, m, 0);
    assert fs[0..] == fs && m.slots[0..] == m.slots && Normal(fs, m).slots[0..] == Normal(fs, m).slots;
  }

  /** From the first decoding of an encoding on, encoding and decoding change nothing any more. */
  lemma RoundTripStable(fs: seq<Field>, bs: seq<byte>)
    requires WellFormed(fs) && Plain(fs) && Proto3(fs) && DefaultsFit(fs)
    requires Decode(fs, Defaults(fs), bs).Some? && PiecesShort(fs, Decode(fs, Defaults(fs), bs).value)
    ensures var m := Decode(fs, Defaults(fs), bs).value;
            var e := EncodeMessage(fs, m);
            && e.Some? && Decode(fs, Defaults(fs), e.value).Some?
            && EncodeMessage(fs, Decode(fs, Defaults(fs), e.value).value) == e
  {
    hide WellFormed, Plain, Proto3, DefaultsFit, Fits, Decode, EncodeMessage, PiecesShort, Normal;
    Reencoded(fs, bs);
    DefaultMessageFits(fs);
    DecodeFits(fs, Defaults(fs), bs);
    NormalEncodesAlike(fs, Decode(fs, Defaults(fs), bs).value);
  }
}
