/** Decoding what the encoder wrote. */
module PbRoundTrip {
  import opened Bits
  import opened Bytes
  import opened PbTypes
  import opened PbEncode
  import opened PbDecode
  import Varint

  // ----- What is left of a struct after encoding and decoding -----

  /** A text ends at its first NUL; nested structs are normalized in turn. */
  function NormalValue(f: Field, v: Value): Value
    decreases f, 0
  {
    if f.ltype.Text? && v.Buf? then Buf(TextContent(v.b))
    else if f.ltype.Submessage? && v.Sub? then Sub(Normal(f.ltype.fields, v.m))
    else v
  }

  function NormalItems(f: Field, items: seq<Value>): (ns: seq<Value>)
    ensures |ns| == |items|
    ensures forall i | 0 <= i < |items| :: ns[i] == NormalValue(f, items[i])
    decreases f, 1, items
  {
    if items == [] then [] else [NormalValue(f, items[0])] + NormalItems(f, items[1..])
  }

  /** Fields that are not written fall back to their defaults. */
  function NormalSlot(f: Field, s: Slot, which: map<nat, nat>): Slot
    decreases f, 2
  {
    if s.Many? then Many(NormalItems(f, s.items))
    else if !Present(f, s, which) then DefaultSlot(f)
    else if s.Opt? then Opt(true, NormalValue(f, s.v))
    else One(NormalValue(f, s.v))
  }

  function NormalSlots(fs: seq<Field>, slots: seq<Slot>, which: map<nat, nat>): (ns: seq<Slot>)
    ensures |slots| == |fs| ==> |ns| == |fs|
    ensures |slots| == |fs| ==> forall i | 0 <= i < |fs| :: ns[i] == NormalSlot(fs[i], slots[i], which)
    decreases fs, 3
  {
    if fs == [] || slots == [] then []
    else [NormalSlot(fs[0], slots[0], which)] + NormalSlots(fs[1..], slots[1..], which)
  }

  /** The which_ tags that name a field of their union among the first i fields. */
  function NormalWhich(fs: seq<Field>, which: map<nat, nat>, i: nat): map<nat, nat>
    requires i <= |fs|
  {
    if i == 0 then map[]
    else
      var w := NormalWhich(fs, which, i - 1);
      var f := fs[i - 1];
      if f.htype.Oneof? && Which(which, f.htype.union) == f.tag then w[f.htype.union := f.tag] else w
  }

  function Normal(fs: seq<Field>, m: Message): Message
    decreases fs, 4
  {
    Message(NormalSlots(fs, m.slots, m.which), NormalWhich(fs, m.which, |fs|))
  }

  // ----- Texts that fit their field -----

  /** The text is terminated within its character array. */
  predicate TextFits(f: Field, v: Value)
    decreases f, 0
  {
    if f.ltype.Text? then v.Buf? && |TextContent(v.b)| < f.dataSize
    else if f.ltype.Submessage? then v.Sub? && TextsFit(f.ltype.fields, v.m)
    else true
  }

  predicate ItemsFit(f: Field, items: seq<Value>)
    decreases f, 1
  {
    forall i | 0 <= i < |items| :: TextFits(f, items[i])
  }

  lemma ItemsFitCons(f: Field, items: seq<Value>)
    requires items != []
    ensures ItemsFit(f, items) <==> TextFits(f, items[0]) && ItemsFit(f, items[1..])
  {
    if ItemsFit(f, items[1..]) {
      forall i | 1 <= i < |items| ensures TextFits(f, items[i]) <==> TextFits(f, items[1..][i - 1]) {
      }
    }
  }

  predicate SlotFits(f: Field, s: Slot, which: map<nat, nat>)
    decreases f, 2
  {
    match s
    case Many(items) => ItemsFit(f, items)
    case _ => Present(f, s, which) ==> TextFits(f, SlotValue(s))
  }

  /** Every text that is written is terminated within its field. */
  predicate TextsFit(fs: seq<Field>, m: Message)
    decreases fs, 3
  {
    forall i | 0 <= i < |fs| && i < |m.slots| :: SlotFits(fs[i], m.slots[i], m.which)
  }

  // ----- Pieces short enough for a length the decoder reads -----

  predicate ShortCode(e: Option<seq<byte>>) {
    e.Some? ==> |e.value| < TWO_32
  }

  predicate ShortValue(f: Field, v: Value)
    decreases f, 0
  {
    f.ltype.Submessage? && v.Sub? ==>
      PiecesShort(f.ltype.fields, v.m) && ShortCode(EncodeMessage(f.ltype.fields, v.m))
  }

  predicate ShortArray(f: Field, items: seq<Value>)
    decreases f, 1
  {
    && (Packable(f.ltype) ==> ShortCode(EncodePacked(f, items)))
    && forall i | 0 <= i < |items| :: ShortValue(f, items[i])
  }

  predicate ShortSlot(f: Field, s: Slot, which: map<nat, nat>)
    decreases f, 2
  {
    match s
    case Many(items) => ShortArray(f, items)
    case _ => Present(f, s, which) ==> ShortValue(f, SlotValue(s))
  }

  /** Every packed array and every nested message that is written is shorter than 2^32; buffers are by their type. */
  predicate PiecesShort(fs: seq<Field>, m: Message)
    decreases fs, 3
  {
    forall i | 0 <= i < |fs| && i < |m.slots| :: ShortSlot(fs[i], m.slots[i], m.which)
  }

  // ----- Scalars -----

  /** What is stored for the number an integer was sent as is the integer. */
  lemma StoredWireInteger(f: Field, n: int)
    requires f.ltype.Varint? || f.ltype.Uvarint? || f.ltype.Svarint?
    requires IntegerWidth(f.dataSize) && HasType(f, Num(n))
    ensures WireInteger(f, n) < TWO_64
    ensures StoredInteger(f, WireInteger(f, n)) == Some(n)
  {
    if f.ltype.Svarint? {
      Varint.ZigZagBijection(n, 0, 8);
      SignedCastIdentity(n, f.dataSize);
    } else if f.ltype.Varint? {
      SignedThrough64(n, if f.dataSize == 8 then 8 else 4);
      SignedCastIdentity(n, f.dataSize);
    }
  }

  lemma IntegerRoundTrip(f: Field, v: Value, tail: seq<byte>)
    requires f.ltype.Varint? || f.ltype.Uvarint? || f.ltype.Svarint?
    requires WellFormedField(f) && HasType(f, v)
    ensures EncodeValue(f, v).Some?
    ensures DecodeInteger(f, EncodeValue(f, v).value + tail) == Got(v, |EncodeValue(f, v).value|)
  {
    StoredWireInteger(f, v.n);
    Varint.RoundTrip(WireInteger(f, v.n), tail);
  }

  lemma FixedRoundTrip(n: nat, width: nat, tail: seq<byte>)
    requires (width == 4 && n < TWO_32) || (width == 8 && n < TWO_64)
    ensures FromLittleEndian((LittleEndian(n, width) + tail)[..width]) == n
  {
    assert (LittleEndian(n, width) + tail)[..width] == LittleEndian(n, width);
    Powers();
    LittleEndianRoundTrip(n, width);
  }

  lemma PrefixRoundTrip(b: seq<byte>, tail: seq<byte>)
    requires |b| < TWO_32
    ensures Varint.Decode32(LengthPrefixed(b) + tail) == Got(|b|, |LengthPrefixed(b)| - |b|)
    ensures Delimited(LengthPrefixed(b) + tail) == Got(b, |LengthPrefixed(b)|)
    ensures (LengthPrefixed(b) + tail)[|LengthPrefixed(b)| - |b|..|LengthPrefixed(b)|] == b
  {
    assert LengthPrefixed(b) + tail == Varint.Encode(|b|) + (b + tail);
    Varint.Decode32OfEncode(|b|, b + tail);
    assert (Varint.Encode(|b|) + (b + tail))[|Varint.Encode(|b|)|..][..|b|] == b;
  }

  lemma BufferRoundTrip(f: Field, v: Value, tail: seq<byte>)
    requires f.ltype.ByteArray? || f.ltype.Text? || f.ltype.FixedBytes?
    requires WellFormedField(f) && HasType(f, v) && EncodeValue(f, v).Some?
    ensures DecodeBuffer(f, EncodeValue(f, v).value + tail) ==
            if TextFits(f, v) then Got(NormalValue(f, v), |EncodeValue(f, v).value|) else Fail
  {
    var b := if f.ltype.Text? then TextContent(v.b) else v.b;
    PrefixRoundTrip(b, tail);
    if f.ltype.FixedBytes? && b == [] {
      assert Zeros(f.dataSize) == b;
    }
  }

  // ----- Values, fields and messages, by recursion over the descriptor -----

  /** A value decodes to its normal form, whatever follows it, if and only if its texts fit. */
  lemma {:induction false} ValueRoundTrip(f: Field, v: Value, stored: Value, tail: seq<byte>)
    requires WellFormedField(f) && HasType(f, v)
    requires EncodeValue(f, v).Some? && ShortValue(f, v)
    requires f.ltype.Submessage? ==> Initial(f, stored) == Defaults(f.ltype.fields)
    ensures DecodeValue(f, stored, EncodeValue(f, v).value + tail) ==
            if TextFits(f, v) then Got(NormalValue(f, v), |EncodeValue(f, v).value|) else Fail
    decreases f, 0
  {
    var e := EncodeValue(f, v).value;
    if f.ltype.Submessage? {
      var body := EncodeMessage(f.ltype.fields, v.m).value;
      PrefixRoundTrip(body, tail);
      RoundTrip(f.ltype.fields, v.m);
    } else if f.ltype.Varint? || f.ltype.Uvarint? || f.ltype.Svarint? {
      IntegerRoundTrip(f, v, tail);
    } else if f.ltype.Fixed32? {
      FixedRoundTrip(v.n, 4, tail);
    } else if f.ltype.Fixed64? {
      FixedRoundTrip(v.n, 8, tail);
    } else {
      BufferRoundTrip(f, v, tail);
    }
  }

  /** The state once the first i fields have been decoded from their own encodings. */
  function After(fs: seq<Field>, m: Message, i: nat): State
    requires |m.slots| == |fs| && i <= |fs|
  {
    var fixed := FixedAfter(fs, i);
    State(Message(SlotsAfter(fs, m, i), NormalWhich(fs, m.which, i)), RequiredAmong(fs, i), fixed.0, fixed.1)
  }

  /** The required fields among the first i. */
  function RequiredAmong(fs: seq<Field>, i: nat): (r: set<nat>)
    requires i <= |fs|
    ensures forall j: nat :: j in r <==> j < i && fs[j].htype.Required?
  {
    if i == 0 then {}
    else if fs[i - 1].htype.Required? then RequiredAmong(fs, i - 1) + {i - 1}
    else RequiredAmong(fs, i - 1)
  }

  function SlotsAfter(fs: seq<Field>, m: Message, i: nat): (slots: seq<Slot>)
    requires |m.slots| == |fs| && i <= |fs|
    ensures |slots| == |fs|
    ensures forall j | 0 <= j < |fs| ::
              slots[j] == if j < i then NormalSlot(fs[j], m.slots[j], m.which) else DefaultSlot(fs[j])
  {
    NormalSlots(fs, m.slots, m.which)[..i] + DefaultSlots(fs)[i..]
  }

  /** The last nonempty array of fixed count among the first i fields, completely received. */
  function FixedAfter(fs: seq<Field>, i: nat): (r: (Option<nat>, nat))
    requires i <= |fs|
    ensures r.0.Some? ==> r.0.value < i && fs[r.0.value].arraySize == r.1
    ensures r.0.None? ==> r.1 == 0
  {
    if i == 0 then (None, 0)
    else if fs[i - 1].htype.FixedCount? && fs[i - 1].arraySize > 0 then (Some(i - 1), fs[i - 1].arraySize)
    else FixedAfter(fs, i - 1)
  }

  lemma {:induction false} FindField(fs: seq<Field>, i: nat)
    requires DistinctTags(fs) && i < |fs|
    ensures Find(fs, fs[i].tag) == i
  {
  }

  /** A tag of field i in front of something the field accepts or refuses. */
  lemma TaggedStep(fs: seq<Field>, i: nat, wireType: nat, st: State, body: seq<byte>, rest: seq<byte>)
    requires WellFormed(fs) && i < |fs| && wireType < 8
    ensures var t := DecodeField(fs, i, wireType, st, body + rest);
            && (t.Next? && t.n == |body| ==>
                  Run(fs, st, Tag(fs[i].tag, wireType) + body + rest) == Run(fs, t.st, rest))
            && (t.Error? ==> Run(fs, st, Tag(fs[i].tag, wireType) + body + rest) == Failed)
  {
    var tag := fs[i].tag;
    var key := 8 * tag + wireType;
    var bs := Tag(tag, wireType) + body + rest;
    assert bs == Varint.Encode(key) + (body + rest);
    Varint.Decode32OfEncode(key, body + rest);
    var n := |Varint.Encode(key)|;
    assert bs[n..] == body + rest;
    assert key / 8 == tag && key % 8 == wireType;
    FindField(fs, i);
    assert bs[n + |body|..] == rest;
  }

  // ----- Arrays -----

  lemma PackableRoundTrip(f: Field, v: Value, tail: seq<byte>)
    requires WellFormedField(f) && Packable(f.ltype) && HasType(f, v)
    ensures EncodeValue(f, v).Some?
    ensures NormalValue(f, v) == v
    ensures DecodeScalar(f, EncodeValue(f, v).value + tail) == Got(v, |EncodeValue(f, v).value|)
  {
    if f.ltype.Fixed32? {
      FixedRoundTrip(v.n, 4, tail);
    } else if f.ltype.Fixed64? {
      FixedRoundTrip(v.n, 8, tail);
    } else {
      IntegerRoundTrip(f, v, tail);
    }
  }

  lemma {:induction false} PackedRoundTrip(f: Field, items: seq<Value>, done: seq<Value>)
    requires WellFormedField(f) && Packable(f.ltype)
    requires forall i | 0 <= i < |items| :: HasType(f, items[i])
    requires |done| + |items| <= f.arraySize
    requires EncodePacked(f, items).Some?
    ensures DecodePacked(f, done, |done|, EncodePacked(f, items).value) == Some((done + items, |done| + |items|))
    decreases items
  {
    if items == [] {
      assert done + items == done;
    } else {
      var v, t := items[0], items[1..];
      var e, tail := EncodeValue(f, v).value, EncodePacked(f, t).value;
      PackableRoundTrip(f, v, tail);
      assert (e + tail)[|e|..] == tail;
      PackedRoundTrip(f, t, done + [v]);
      assert done + [v] + t == done + items;
    }
  }

  /** The state after n entries of array field i. */
  function ArrayState(fs: seq<Field>, i: nat, st: State, items: seq<Value>): State
    requires i < |fs|
  {
    var st1 := SetSlot(st, i, Many(items));
    if fs[i].htype.FixedCount? && items != [] then st1.(fixedField := Some(i), fixedCount := |items|) else st1
  }

  /** One more entry of an array that is not packed. */
  lemma EntryDecodes(fs: seq<Field>, i: nat, st: State, done: seq<Value>, v: Value, body: seq<byte>, rest: seq<byte>)
    requires WellFormed(fs) && i < |fs| == |st.msg.slots| && (fs[i].htype.Repeated? || fs[i].htype.FixedCount?)
    requires !Packable(fs[i].ltype) && |done| < fs[i].arraySize
    requires FixedComplete(fs, st) && st.fixedField != Some(i)
    ensures var p := DecodeValue(fs[i], Num(0), body + rest);
            var t := DecodeField(fs, i, WireType(fs[i].ltype), ArrayState(fs, i, st, done), body + rest);
            && (p.Fail? ==> t.Error?)
            && (p == Got(v, |body|) ==> t == Next(ArrayState(fs, i, st, done + [v]), |body|))
  {
    var now := ArrayState(fs, i, st, done);
    assert now.msg.slots[i] == Many(done);
    assert SetSlot(now, i, Many(done + [v])).msg == SetSlot(st, i, Many(done + [v])).msg;
  }

  lemma {:induction false} EntryRoundTrip(
    fs: seq<Field>, i: nat, st: State, done: seq<Value>, v: Value, rest: seq<byte>)
    requires WellFormed(fs) && i < |fs| == |st.msg.slots| && (fs[i].htype.Repeated? || fs[i].htype.FixedCount?)
    requires !Packable(fs[i].ltype) && |done| < fs[i].arraySize && HasType(fs[i], v)
    requires FixedComplete(fs, st) && st.fixedField != Some(i)
    requires EncodeTagged(fs[i], v).Some? && ShortValue(fs[i], v)
    ensures Run(fs, ArrayState(fs, i, st, done), EncodeTagged(fs[i], v).value + rest)
            == if TextFits(fs[i], v) then Run(fs, ArrayState(fs, i, st, done + [NormalValue(fs[i], v)]), rest)
               else Failed
    decreases fs[i], 1
  {
    var f := fs[i];
    var e := EncodeValue(f, v).value;
    assert EncodeTagged(f, v).value + rest == Tag(f.tag, WireType(f.ltype)) + e + rest;
    ValueRoundTrip(f, v, Num(0), rest);
    EntryDecodes(fs, i, st, done, NormalValue(f, v), e, rest);
    TaggedStep(fs, i, WireType(f.ltype), ArrayState(fs, i, st, done), e, rest);
  }

  lemma {:induction false} UnpackedRoundTrip(
    fs: seq<Field>, i: nat, st: State, done: seq<Value>, items: seq<Value>, rest: seq<byte>)
    requires WellFormed(fs) && i < |fs| == |st.msg.slots| && (fs[i].htype.Repeated? || fs[i].htype.FixedCount?)
    requires !Packable(fs[i].ltype)
    requires |done| + |items| <= fs[i].arraySize && forall j | 0 <= j < |items| :: HasType(fs[i], items[j])
    requires FixedComplete(fs, st) && st.fixedField != Some(i)
    requires EncodeUnpacked(fs[i], items).Some? && forall j | 0 <= j < |items| :: ShortValue(fs[i], items[j])
    ensures Run(fs, ArrayState(fs, i, st, done), EncodeUnpacked(fs[i], items).value + rest)
            == if ItemsFit(fs[i], items)
               then Run(fs, ArrayState(fs, i, st, done + NormalItems(fs[i], items)), rest)
               else Failed
    decreases fs[i], 2, items
  {
    var f := fs[i];
    if items == [] {
      assert done + NormalItems(f, items) == done;
      assert EncodeUnpacked(f, items).value + rest == rest;
    } else {
      var v, t := items[0], items[1..];
      var e, more := EncodeTagged(f, v).value, EncodeUnpacked(f, t).value;
      var next := done + [NormalValue(f, v)];
      assert EncodeUnpacked(f, items).value + rest == e + (more + rest);
      assert next + NormalItems(f, t) == done + NormalItems(f, items);
      ItemsFitCons(f, items);
      EntryRoundTrip(fs, i, st, done, v, more + rest);
      if TextFits(f, v) {
        UnpackedRoundTrip(fs, i, st, next, t, rest);
      }
    }
  }

  lemma NormalNumbers(f: Field, items: seq<Value>)
    requires Packable(f.ltype)
    ensures NormalItems(f, items) == items && ItemsFit(f, items)
  {
  }

  /** A packed array decodes as one field. */
  lemma PackedDecodes(fs: seq<Field>, i: nat, st: State, items: seq<Value>, body: seq<byte>, rest: seq<byte>)
    requires i < |fs| == |st.msg.slots| && (fs[i].htype.Repeated? || fs[i].htype.FixedCount?) && Packable(fs[i].ltype)
    requires st.msg.slots[i] == Many([]) && items != []
    requires FixedComplete(fs, st) && st.fixedField != Some(i)
    requires |body| < TWO_32 && DecodePacked(fs[i], [], 0, body) == Some((items, |items|))
    ensures DecodeField(fs, i, WT_STRING, st, LengthPrefixed(body) + rest) ==
            Next(ArrayState(fs, i, st, items), |LengthPrefixed(body)|)
  {
    hide LengthPrefixed, Delimited, DecodePacked;
    PrefixRoundTrip(body, rest);
  }

  lemma {:induction false} PackedArrayRoundTrip(fs: seq<Field>, i: nat, st: State, items: seq<Value>, rest: seq<byte>)
    requires WellFormed(fs) && i < |fs| == |st.msg.slots| && (fs[i].htype.Repeated? || fs[i].htype.FixedCount?)
    requires Packable(fs[i].ltype) && items != [] && |items| <= fs[i].arraySize
    requires forall j | 0 <= j < |items| :: HasType(fs[i], items[j])
    requires st.msg.slots[i] == Many([])
    requires FixedComplete(fs, st) && st.fixedField != Some(i)
    requires EncodeArray(fs[i], items).Some? && ShortArray(fs[i], items)
    ensures Run(fs, st, EncodeArray(fs[i], items).value + rest) == Run(fs, ArrayState(fs, i, st, items), rest)
  {
    hide Run, Step, DistinctTags, DecodeField, ArrayState, FixedComplete, LengthPrefixed, HasType, ShortValue;
    var body := EncodePacked(fs[i], items).value;
    PackedRoundTrip(fs[i], items, []);
    assert [] + items == items;
    PackedDecodes(fs, i, st, items, body, rest);
    TaggedStep(fs, i, WT_STRING, st, LengthPrefixed(body), rest);
  }

  lemma {:induction false} ArrayRoundTrip(fs: seq<Field>, i: nat, st: State, items: seq<Value>, rest: seq<byte>)
    requires WellFormed(fs) && i < |fs| == |st.msg.slots| && (fs[i].htype.Repeated? || fs[i].htype.FixedCount?)
    requires forall j | 0 <= j < |items| :: HasType(fs[i], items[j])
    requires fs[i].htype.FixedCount? ==> |items| == fs[i].arraySize
    requires st.msg.slots[i] == Many([])
    requires FixedComplete(fs, st) && st.fixedField != Some(i)
    requires EncodeArray(fs[i], items).Some? && ShortArray(fs[i], items)
    ensures Run(fs, st, EncodeArray(fs[i], items).value + rest)
            == if ItemsFit(fs[i], items)
               then Run(fs, ArrayState(fs, i, st, NormalItems(fs[i], items)), rest)
               else Failed
    decreases fs[i], 3
  {
    hide Run, Step, DistinctTags, FixedComplete, HasType, ShortValue, EncodePacked, EncodeUnpacked;
    var f := fs[i];
    assert ArrayState(fs, i, st, []) == st;
    if items == [] {
      assert EncodeArray(f, items).value + rest == rest;
    } else if Packable(f.ltype) {
      NormalNumbers(f, items);
      PackedArrayRoundTrip(fs, i, st, items, rest);
    } else {
      UnpackedRoundTrip(fs, i, st, [], items, rest);
      assert [] + NormalItems(f, items) == NormalItems(f, items);
    }
  }

  // ----- Fields and messages -----

  /** Storing the normal form of a single value moves on to the next field. */
  lemma StoreAfter(fs: seq<Field>, m: Message, i: nat)
    requires Typed(fs, m) && i < |fs| && !m.slots[i].Many? && Present(fs[i], m.slots[i], m.which)
    ensures Store(fs[i], i, After(fs, m, i), NormalValue(fs[i], SlotValue(m.slots[i]))) == After(fs, m, i + 1)
  {
    var st := Store(fs[i], i, After(fs, m, i), NormalValue(fs[i], SlotValue(m.slots[i])));
    assert st.msg.slots == After(fs, m, i + 1).msg.slots;
  }

  lemma SkipSlots(fs: seq<Field>, m: Message, i: nat)
    requires |m.slots| == |fs| && i < |fs| && NormalSlot(fs[i], m.slots[i], m.which) == DefaultSlot(fs[i])
    ensures SlotsAfter(fs, m, i) == SlotsAfter(fs, m, i + 1)
  {
  }

  lemma SkipAfter(fs: seq<Field>, m: Message, i: nat)
    requires Typed(fs, m) && i < |fs| && !m.slots[i].Many? && !Present(fs[i], m.slots[i], m.which)
    ensures After(fs, m, i) == After(fs, m, i + 1)
  {
    SkipSlots(fs, m, i);
    assert NormalWhich(fs, m.which, i) == NormalWhich(fs, m.which, i + 1);
    assert RequiredAmong(fs, i) == RequiredAmong(fs, i + 1);
    assert FixedAfter(fs, i) == FixedAfter(fs, i + 1);
  }

  lemma ArrayAfter(fs: seq<Field>, m: Message, i: nat)
    requires Typed(fs, m) && i < |fs| && m.slots[i].Many?
    ensures ArrayState(fs, i, After(fs, m, i), NormalItems(fs[i], m.slots[i].items)) == After(fs, m, i + 1)
  {
    var st := ArrayState(fs, i, After(fs, m, i), NormalItems(fs[i], m.slots[i].items));
    assert st.msg.slots == After(fs, m, i + 1).msg.slots;
  }

  lemma StoredIsDefault(fs: seq<Field>, m: Message, i: nat)
    requires Typed(fs, m) && i < |fs| && !m.slots[i].Many?
    ensures SlotOld(fs[i], After(fs, m, i).msg.slots[i]) == DefaultValue(fs[i])
  {
    assert After(fs, m, i).msg.slots[i] == DefaultSlot(fs[i]);
  }

  lemma {:induction false} FieldRoundTrip(fs: seq<Field>, m: Message, i: nat, rest: seq<byte>)
    requires WellFormed(fs) && Typed(fs, m) && i < |fs|
    requires EncodeField(fs[i], m.slots[i], m.which).Some? && ShortSlot(fs[i], m.slots[i], m.which)
    ensures Run(fs, After(fs, m, i), EncodeField(fs[i], m.slots[i], m.which).value + rest)
            == if SlotFits(fs[i], m.slots[i], m.which) then Run(fs, After(fs, m, i + 1), rest) else Failed
    decreases fs[i], 4
  {
    var f, s, st := fs[i], m.slots[i], After(fs, m, i);
    var e := EncodeField(f, s, m.which).value;
    if s.Many? {
      ArrayRoundTrip(fs, i, st, s.items, rest);
      ArrayAfter(fs, m, i);
    } else if !Present(f, s, m.which) {
      assert e + rest == rest;
      SkipAfter(fs, m, i);
    } else {
      var v := SlotValue(s);
      var ev := EncodeValue(f, v).value;
      StoredIsDefault(fs, m, i);
      ValueRoundTrip(f, v, DefaultValue(f), rest);
      assert e + rest == Tag(f.tag, WireType(f.ltype)) + ev + rest;
      TaggedStep(fs, i, WireType(f.ltype), st, ev, rest);
      StoreAfter(fs, m, i);
    }
  }

  lemma {:induction false} FieldsRoundTrip(fs: seq<Field>, m: Message, i: nat)
    requires WellFormed(fs) && Typed(fs, m) && i <= |fs|
    requires EncodeFields(fs[i..], m.slots[i..], m.which).Some?
    requires PiecesShort(fs, m)
    ensures Run(fs, After(fs, m, i), EncodeFields(fs[i..], m.slots[i..], m.which).value)
            == if forall j | i <= j < |fs| :: SlotFits(fs[j], m.slots[j], m.which)
               then Ended(After(fs, m, |fs|), false)
               else Failed
    decreases fs, 5, |fs| - i
  {
    if i < |fs| {
      assert fs[i..][1..] == fs[i + 1..] && m.slots[i..][1..] == m.slots[i + 1..];
      FieldRoundTrip(fs, m, i, EncodeFields(fs[i + 1..], m.slots[i + 1..], m.which).value);
      FieldsRoundTrip(fs, m, i + 1);
    }
  }

  lemma BeforeFields(fs: seq<Field>, m: Message)
    requires Typed(fs, m)
    ensures After(fs, m, 0) == Start(Defaults(fs))
  {
    assert SlotsAfter(fs, m, 0) == DefaultSlots(fs);
  }

  lemma AfterFields(fs: seq<Field>, m: Message)
    requires Typed(fs, m)
    ensures After(fs, m, |fs|).msg == Normal(fs, m)
    ensures FixedComplete(fs, After(fs, m, |fs|)) && RequiredSeen(fs, After(fs, m, |fs|).seen)
  {
    assert SlotsAfter(fs, m, |fs|) == NormalSlots(fs, m.slots, m.which);
  }

  /** Decoding the encoding of any typed struct yields its normal form, if and only if every text that was written is
      terminated within its field; otherwise decoding fails. */
  lemma {:induction false} RoundTrip(fs: seq<Field>, m: Message)
    requires WellFormed(fs) && Typed(fs, m)
    requires EncodeMessage(fs, m).Some? && PiecesShort(fs, m)
    ensures Decode(fs, Defaults(fs), EncodeMessage(fs, m).value) ==
            if TextsFit(fs, m) then Some(Normal(fs, m)) else None
    decreases fs, 6
  {
    hide Run, Step, After, DefaultSlots, EncodeFields, SlotFits, WellFormedField, SlotHasType, ShortSlot,
         DistinctTags;
    assert fs[0..] == fs && m.slots[0..] == m.slots;
    FieldsRoundTrip(fs, m, 0);
    BeforeFields(fs, m);
    AfterFields(fs, m);
  }

  // ----- What the proto3 default check drops -----

  predicate HoldsFixedArray(fs: seq<Field>) {
    exists i | 0 <= i < |fs| :: fs[i].htype.FixedCount? && fs[i].arraySize > 0
  }

  lemma DefaultSlotKept(f: Field, s: Slot, which: map<nat, nat>)
    requires WellFormedField(f) && SlotHasType(f, s) && SlotIsDefault(f, s, which)
    ensures NormalSlot(f, s, which) == DefaultSlot(f) <==> !(f.htype.FixedCount? && f.arraySize > 0)
    ensures f.htype.Oneof? ==> Which(which, f.htype.union) != f.tag
  {
    if s.Many? {
      assert |NormalItems(f, s.items)| == |s.items|;
    }
  }

  lemma {:induction false} NoWhich(fs: seq<Field>, which: map<nat, nat>, i: nat)
    requires i <= |fs|
    requires forall j | 0 <= j < |fs| && fs[j].htype.Oneof? :: Which(which, fs[j].htype.union) != fs[j].tag
    ensures NormalWhich(fs, which, i) == map[]
  {
    if i != 0 {
      NoWhich(fs, which, i - 1);
    }
  }

  lemma DefaultMessageKept(fs: seq<Field>, m: Message)
    requires WellFormed(fs) && Typed(fs, m) && MessageIsDefault(fs, m)
    ensures Normal(fs, m) == Defaults(fs) <==> !HoldsFixedArray(fs)
  {
    forall i | 0 <= i < |fs|
      ensures NormalSlot(fs[i], m.slots[i], m.which) == DefaultSlot(fs[i])
              <==> !(fs[i].htype.FixedCount? && fs[i].arraySize > 0)
      ensures fs[i].htype.Oneof? ==> Which(m.which, fs[i].htype.union) != fs[i].tag
    {
      DefaultSlotKept(fs[i], m.slots[i], m.which);
    }
    NoWhich(fs, m.which, |fs|);
    if !HoldsFixedArray(fs) {
      assert NormalSlots(fs, m.slots, m.which) == DefaultSlots(fs);
    } else {
      var i :| 0 <= i < |fs| && fs[i].htype.FixedCount? && fs[i].arraySize > 0;
      assert NormalSlots(fs, m.slots, m.which)[i] != DefaultSlots(fs)[i];
    }
  }

  lemma ScalarDefaultKept(f: Field, v: Value)
    requires !f.ltype.Submessage? && f.default.None? && HasType(f, v) && ValueIsDefault(f, v)
    ensures NormalValue(f, v) == DefaultValue(f)
  {
    if f.ltype.Text? {
      assert TextContent(v.b) == [];
    } else if f.ltype.FixedBytes? {
      assert v.b == Zeros(f.dataSize);
    }
  }

  /** A proto3 field keeps its value if and only if it is written, or its type is not a message with a nonempty array
      of fixed count: such an array's first entry is mistaken for its count. */
  lemma SingularKept(f: Field, s: Slot, which: map<nat, nat>)
    requires WellFormedField(f) && f.htype.Singular? && f.default.None? && SlotHasType(f, s)
    ensures NormalSlot(f, s, which) == One(NormalValue(f, s.v))
            <==> Present(f, s, which) || !(f.ltype.Submessage? && HoldsFixedArray(f.ltype.fields))
  {
    if !Present(f, s, which) {
      if f.ltype.Submessage? {
        DefaultMessageKept(f.ltype.fields, s.v.m);
        assert NormalValue(f, s.v) == Sub(Normal(f.ltype.fields, s.v.m));
        assert DefaultSlot(f) == One(Sub(Defaults(f.ltype.fields)));
      } else {
        ScalarDefaultKept(f, s.v);
      }
    }
  }

  /** A concrete loss: the array {0, 7} inside a proto3 submessage encodes to nothing. */
  lemma FixedCountHidden()
    ensures var entries := Field(1, Uvarint, FixedCount, 4, 2, None);
            var outer := Field(1, Submessage([entries]), Singular, 8, 0, None);
            var m := Message([One(Sub(Message([Many([Num(0), Num(7)])], map[])))], map[]);
            && WellFormed([outer]) && Typed([outer], m)
            && EncodeMessage([outer], m) == Some([])
            && Decode([outer], Defaults([outer]), []) == Some(Defaults([outer]))
            && Normal([outer], m) == Defaults([outer])
            && m.slots[0] != Normal([outer], m).slots[0]
  {
    var entries := Field(1, Uvarint, FixedCount, 4, 2, None);
    var outer := Field(1, Submessage([entries]), Singular, 8, 0, None);
    var inner := Message([Many([Num(0), Num(7)])], map[]);
    var m := Message([One(Sub(inner))], map[]);
    assert WellFormed([entries]);
    assert MessageIsDefault([entries], inner);
    assert Typed([entries], inner);
    assert SlotHasType(outer, m.slots[0]);
    assert !Present(outer, m.slots[0], map[]);
    assert EncodeField(outer, m.slots[0], map[]) == Some([]);
    assert EncodeFields([outer][1..], m.slots[1..], map[]) == Some([]);
    assert EncodeFields([outer], m.slots, map[]) == Append(Some([]), Some([]));
    RoundTrip([outer], m);
    assert NormalSlot(outer, m.slots[0], map[]) == DefaultSlot(outer);
    assert NormalSlots([outer], m.slots, map[]) == DefaultSlots([outer]);
    assert DefaultSlots([entries])[0] == Many([]);
    assert |inner.slots[0].items| == 2;
    assert DefaultSlots([outer])[0] == DefaultSlot(outer) == One(Sub(Defaults([entries])));
  }
}
