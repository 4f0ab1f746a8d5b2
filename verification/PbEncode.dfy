/** What the encoder writes for a message struct, as a function; None is an error return. */
module PbEncode {
  import opened Bytes
  import opened PbTypes
  import Varint

  /** The characters before the first NUL. */
  function TextContent(b: seq<byte>): (s: seq<byte>)
    ensures |s| <= |b| && s == b[..|s|]
    ensures 0 !in s
    ensures |s| < |b| ==> b[|s|] == 0
  {
    if b == [] || b[0] == 0 then [] else [b[0]] + TextContent(b[1..])
  }

  function Append(a: Option<seq<byte>>, b: Option<seq<byte>>): Option<seq<byte>> {
    if a.Some? && b.Some? then Some(a.value + b.value) else None
  }

  function Tag(tag: nat, wireType: nat): seq<byte> {
    Varint.Encode(8 * tag + wireType)
  }

  function LengthPrefixed(b: seq<byte>): seq<byte> {
    Varint.Encode(|b| % TWO_64) + b
  }

  // ----- The proto3 default check -----

  /** Reading the array's own storage as if it were its count: the value of its first four bytes is zero. Exact for
      integers of at least four bytes and for bytes arrays. */
  predicate HeadWordIsZero(items: seq<Value>) {
    items != [] ==> match items[0]
                    case Num(n) => n % TWO_32 == 0
                    case Buf(b) => b == []
                    case Sub(_) => false
  }

  predicate ValueIsDefault(f: Field, v: Value)
    decreases f, 0
  {
    match f.ltype
    case ByteArray => v.Buf? && v.b == []
    case Text => v.Buf? && TextContent(v.b) == []
    case FixedBytes => f.dataSize == 0
    case Submessage(fs) => v.Sub? && MessageIsDefault(fs, v.m)
    case _ => v.Num? && v.n == 0
  }

  predicate SlotIsDefault(f: Field, s: Slot, which: map<nat, nat>)
    decreases f, 1
  {
    match f.htype
    case Required => false
    case Optional => s.Opt? && !s.has
    case Singular => s.One? && ValueIsDefault(f, s.v)
    case Repeated => s.Many? && s.items == []
    case FixedCount => s.Many? && HeadWordIsZero(s.items)
    case Oneof(u) => Which(which, u) == 0
  }

  predicate MessageIsDefault(fs: seq<Field>, m: Message)
    decreases fs, 2
  {
    && |m.slots| == |fs|
    && forall i | 0 <= i < |fs| :: SlotIsDefault(fs[i], m.slots[i], m.which)
  }

  // ----- Fields -----

  /** The 64-bit number an integer is sent as: sign-extended, or zig-zag. */
  function WireInteger(f: Field, n: int): nat {
    if f.ltype.Svarint? then Varint.ZigZag(n) else n % TWO_64
  }

  function EncodeValue(f: Field, v: Value): Option<seq<byte>>
    decreases f, 0
  {
    match f.ltype
    case Varint | Uvarint | Svarint =>
      if v.Num? && IntegerWidth(f.dataSize) then Some(Varint.Encode(WireInteger(f, v.n))) else None
    case Fixed32 => if v.Num? && v.n >= 0 then Some(LittleEndian(v.n, 4)) else None
    case Fixed64 => if v.Num? && v.n >= 0 then Some(LittleEndian(v.n, 8)) else None
    case ByteArray => if v.Buf? && |v.b| + BYTES_HEADER <= f.dataSize then Some(LengthPrefixed(v.b)) else None
    case Text => if v.Buf? then Some(LengthPrefixed(TextContent(v.b))) else None
    case FixedBytes => if v.Buf? then Some(LengthPrefixed(v.b)) else None
    case Submessage(fs) =>
      if !v.Sub? then None
      else
        match EncodeMessage(fs, v.m)
        case None => None
        case Some(e) => Some(LengthPrefixed(e))
  }

  /** Array entries without tags, as a packed array holds them. */
  function EncodePacked(f: Field, items: seq<Value>): Option<seq<byte>>
    decreases f, 1, items
  {
    if items == [] then Some([]) else Append(EncodeValue(f, items[0]), EncodePacked(f, items[1..]))
  }

  function EncodeTagged(f: Field, v: Value): Option<seq<byte>>
    decreases f, 1
  {
    Append(Some(Tag(f.tag, WireType(f.ltype))), EncodeValue(f, v))
  }

  /** Array entries each with its own tag. */
  function EncodeUnpacked(f: Field, items: seq<Value>): Option<seq<byte>>
    decreases f, 2, items
  {
    if items == [] then Some([]) else Append(EncodeTagged(f, items[0]), EncodeUnpacked(f, items[1..]))
  }

  function EncodeArray(f: Field, items: seq<Value>): Option<seq<byte>>
    decreases f, 3
  {
    if items == [] then Some([])
    else if |items| > f.arraySize then None
    else if Packable(f.ltype) then
      match EncodePacked(f, items)
      case None => None
      case Some(e) => Some(Tag(f.tag, WT_STRING) + LengthPrefixed(e))
    else EncodeUnpacked(f, items)
  }

  /** Whether a field that is not an array is written. */
  predicate Present(f: Field, s: Slot, which: map<nat, nat>) {
    match f.htype
    case Optional => s.Opt? && s.has
    case Singular => s.One? && !ValueIsDefault(f, s.v)
    case Oneof(u) => Which(which, u) == f.tag
    case _ => true
  }

  function SlotValue(s: Slot): Value {
    match s
    case One(v) => v
    case Opt(_, v) => v
    case Many(_) => Buf([])
  }

  function EncodeField(f: Field, s: Slot, which: map<nat, nat>): Option<seq<byte>>
    decreases f, 4
  {
    if f.htype.Repeated? || f.htype.FixedCount? then
      if s.Many? then EncodeArray(f, s.items) else None
    else if s.Many? then None
    else if Present(f, s, which) then EncodeTagged(f, SlotValue(s))
    else Some([])
  }

  function EncodeFields(fs: seq<Field>, slots: seq<Slot>, which: map<nat, nat>): Option<seq<byte>>
    decreases fs, 5
  {
    if fs == [] || slots == [] then Some([])
    else Append(EncodeField(fs[0], slots[0], which), EncodeFields(fs[1..], slots[1..], which))
  }

  function EncodeMessage(fs: seq<Field>, m: Message): Option<seq<byte>>
    decreases fs, 6
  {
    EncodeFields(fs, m.slots, m.which)
  }

  // ----- When encoding succeeds -----

  /** Sizes the encoder checks, wherever it looks: array counts, bytes arrays and integer widths. */
  predicate Encodable(fs: seq<Field>, m: Message)
    decreases fs, 3
  {
    forall i | 0 <= i < |fs| && i < |m.slots| :: EncodableSlot(fs[i], m.slots[i], m.which)
  }

  predicate EncodableSlot(f: Field, s: Slot, which: map<nat, nat>)
    decreases f, 2
  {
    match s
    case Many(items) => |items| <= f.arraySize && forall i | 0 <= i < |items| :: EncodableValue(f, items[i])
    case _ => Present(f, s, which) ==> EncodableValue(f, SlotValue(s))
  }

  predicate EncodableValue(f: Field, v: Value)
    decreases f, 1
  {
    match f.ltype
    case ByteArray => v.Buf? && |v.b| + BYTES_HEADER <= f.dataSize
    case Submessage(fs) => v.Sub? && Encodable(fs, v.m)
    case _ => true
  }

  lemma {:induction false} ValueEncodes(f: Field, v: Value)
    requires WellFormedField(f) && HasType(f, v)
    ensures EncodeValue(f, v).Some? <==> EncodableValue(f, v)
    decreases f, 0
  {
    if f.ltype.Submessage? {
      EncodesIffEncodable(f.ltype.fields, v.m);
    }
  }

  lemma {:induction false} ArrayEncodes(f: Field, items: seq<Value>)
    requires WellFormedField(f) && forall i | 0 <= i < |items| :: HasType(f, items[i])
    ensures EncodePacked(f, items).Some? <==> forall i | 0 <= i < |items| :: EncodableValue(f, items[i])
    ensures EncodeUnpacked(f, items).Some? <==> forall i | 0 <= i < |items| :: EncodableValue(f, items[i])
    decreases f, 1, items
  {
    if items != [] {
      ValueEncodes(f, items[0]);
      ArrayEncodes(f, items[1..]);
      var ok := forall i | 0 <= i < |items[1..]| :: EncodableValue(f, items[1..][i]);
      assert ok ==> forall i | 1 <= i < |items| :: EncodableValue(f, items[i]) by {
        forall i | ok && 1 <= i < |items| ensures EncodableValue(f, items[i]) {
          assert items[i] == items[1..][i - 1];
        }
      }
    }
  }

  lemma {:induction false} SlotEncodes(f: Field, s: Slot, which: map<nat, nat>)
    requires WellFormedField(f) && SlotHasType(f, s)
    ensures EncodeField(f, s, which).Some? <==> EncodableSlot(f, s, which)
    decreases f, 2
  {
    if s.Many? {
      ArrayEncodes(f, s.items);
    } else {
      ValueEncodes(f, SlotValue(s));
    }
  }

  lemma {:induction false} FieldsEncode(fs: seq<Field>, slots: seq<Slot>, which: map<nat, nat>)
    requires |slots| == |fs|
    requires forall i | 0 <= i < |fs| :: WellFormedField(fs[i]) && SlotHasType(fs[i], slots[i])
    ensures EncodeFields(fs, slots, which).Some? <==> forall i | 0 <= i < |fs| :: EncodableSlot(fs[i], slots[i], which)
    decreases fs, 3
  {
    if fs != [] {
      SlotEncodes(fs[0], slots[0], which);
      FieldsEncode(fs[1..], slots[1..], which);
      var ok := forall i | 0 <= i < |fs[1..]| :: EncodableSlot(fs[1..][i], slots[1..][i], which);
      assert ok ==> forall i | 1 <= i < |fs| :: EncodableSlot(fs[i], slots[i], which) by {
        forall i | ok && 1 <= i < |fs| ensures EncodableSlot(fs[i], slots[i], which) {
          assert fs[i] == fs[1..][i - 1] && slots[i] == slots[1..][i - 1];
        }
      }
    }
  }

  /** The encoder fails on a typed struct exactly when some size it looks at is out of bounds, at any depth. */
  lemma {:induction false} EncodesIffEncodable(fs: seq<Field>, m: Message)
    requires WellFormed(fs) && Typed(fs, m)
    ensures EncodeMessage(fs, m).Some? <==> Encodable(fs, m)
    decreases fs, 4
  {
    FieldsEncode(fs, m.slots, m.which);
  }

  // ----- What is not written at all -----

  /** Proto3 fields have no defaults of their own, at any depth. */
  predicate PlainDefaults(fs: seq<Field>)
    decreases fs, 1
  {
    forall i | 0 <= i < |fs| :: PlainDefault(fs[i])
  }

  predicate PlainDefault(f: Field)
    decreases f, 0
  {
    f.htype.Singular? ==> f.default.None? && (f.ltype.Submessage? ==> PlainDefaults(f.ltype.fields))
  }

  /** Fields that a struct of defaults leaves out: proto3 numbers, texts and bytes, arrays, and messages of such fields;
      neither required fields nor proto3 bytes of a fixed nonzero length. */
  predicate Silent(fs: seq<Field>)
    decreases fs, 1
  {
    forall i | 0 <= i < |fs| :: SilentField(fs[i])
  }

  predicate SilentField(f: Field)
    decreases f, 0
  {
    && !f.htype.Required?
    && (f.htype.Singular? && f.ltype.FixedBytes? ==> f.dataSize == 0)
    && (f.htype.Singular? && f.ltype.Submessage? ==> Silent(f.ltype.fields))
  }

  lemma {:induction false} SilentMessage(fs: seq<Field>)
    requires PlainDefaults(fs)
    ensures MessageIsDefault(fs, Defaults(fs)) <==> Silent(fs)
    decreases fs, 1
  {
    forall i | 0 <= i < |fs| ensures SlotIsDefault(fs[i], DefaultSlot(fs[i]), map[]) <==> SilentField(fs[i]) {
      SilentSlot(fs[i]);
    }
  }

  lemma {:induction false} SilentSlot(f: Field)
    requires PlainDefault(f)
    ensures SlotIsDefault(f, DefaultSlot(f), map[]) <==> SilentField(f)
    decreases f, 0
  {
    if f.htype.Singular? && f.ltype.Submessage? {
      SilentMessage(f.ltype.fields);
    }
  }

  lemma SilentEncoding(f: Field)
    requires PlainDefault(f) && WellFormedField(f)
    ensures EncodeField(f, DefaultSlot(f), map[]) == Some([]) <==> SilentField(f)
  {
    SilentSlot(f);
    assert |Tag(f.tag, WireType(f.ltype))| > 0;
  }

  lemma SilentCons(fs: seq<Field>)
    requires fs != []
    ensures Silent(fs) <==> SilentField(fs[0]) && Silent(fs[1..])
  {
    hide SilentField;
    if Silent(fs[1..]) {
      forall i | 1 <= i < |fs| ensures SilentField(fs[i]) <==> SilentField(fs[1..][i - 1]) {
      }
    }
  }

  lemma NothingToSay(fs: seq<Field>)
    requires fs == []
    ensures Silent(fs)
  {
  }

  lemma AppendsNothing(a: Option<seq<byte>>, b: Option<seq<byte>>)
    ensures Append(a, b) == Some([]) <==> a == Some([]) && b == Some([])
  {
    if a.Some? && b.Some? {
      assert |a.value + b.value| == |a.value| + |b.value|;
      assert a.value + b.value == [] <==> a.value == [] && b.value == [];
    }
  }

  lemma {:induction false} SilentFields(fs: seq<Field>, slots: seq<Slot>)
    requires |slots| == |fs| && forall i | 0 <= i < |fs| :: slots[i] == DefaultSlot(fs[i])
    requires forall i | 0 <= i < |fs| :: PlainDefault(fs[i]) && WellFormedField(fs[i])
    ensures EncodeFields(fs, slots, map[]) == Some([]) <==> Silent(fs)
    decreases fs
  {
    hide EncodeField, SilentField, PlainDefault, WellFormedField, DefaultSlot, Append, Silent;
    if fs == [] {
      NothingToSay(fs);
    } else {
      SilentEncoding(fs[0]);
      SilentFields(fs[1..], slots[1..]);
      AppendsNothing(EncodeField(fs[0], slots[0], map[]), EncodeFields(fs[1..], slots[1..], map[]));
      SilentCons(fs);
    }
  }

  /** The defaults of a descriptor encode to nothing exactly if its fields are such that defaults are left out. */
  lemma DefaultsAreSilent(fs: seq<Field>)
    requires WellFormed(fs) && PlainDefaults(fs) && Typed(fs, Defaults(fs))
    ensures EncodeMessage(fs, Defaults(fs)) == Some([]) <==> Silent(fs)
  {
    SilentFields(fs, Defaults(fs).slots);
  }
}
