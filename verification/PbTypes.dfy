/** Message descriptors and message structs of the protobuf codec. */
module PbTypes {
  import opened Bytes

  /** PB_SIZE_MAX and the offset of the payload in a bytes array, in the 32-bit-field build the pods configure. */
  const SIZE_MAX: int := 0xFFFF_FFFF
  const BYTES_HEADER := 4
  const MAX_REQUIRED_FIELDS := 64

  /** The data type of a field; a submessage carries the descriptor it points to. */
  datatype LType =
    | Varint
    | Uvarint
    | Svarint
    | Fixed32
    | Fixed64
    | ByteArray
    | Text
    | FixedBytes
    | Submessage(fields: seq<Field>)

  /** The repetition rule of a field. Singular is OPTIONAL without a has_ flag; FixedCount is REPEATED without a
      count; the fields of one union share the union's number. */
  datatype HType = Required | Optional | Singular | Repeated | FixedCount | Oneof(union: nat)

  datatype Field = Field(
    tag: nat, ltype: LType, htype: HType, dataSize: nat, arraySize: nat, default: Option<Value>)

  /** The stored value of one field entry. Fixed-width fields hold their raw unsigned bits. A Text value is the
      character array up to, and without, the terminator that was stored last. */
  datatype Value = Num(n: int) | Buf(b: seq<byte>) | Sub(m: Message)

  datatype Slot = One(v: Value) | Opt(has: bool, v: Value) | Many(items: seq<Value>)

  /** A message struct: one slot per descriptor field, and the which_ tag of every union (absent means 0). */
  datatype Message = Message(slots: seq<Slot>, which: map<nat, nat>)

  function Which(which: map<nat, nat>, union: nat): nat {
    if union in which then which[union] else 0
  }

  predicate Packable(t: LType) {
    t.Varint? || t.Uvarint? || t.Svarint? || t.Fixed32? || t.Fixed64?
  }

  const WT_VARINT := 0
  const WT_64BIT := 1
  const WT_STRING := 2
  const WT_32BIT := 5

  function WireType(t: LType): nat {
    match t
    case Varint | Uvarint | Svarint => WT_VARINT
    case Fixed32 => WT_32BIT
    case Fixed64 => WT_64BIT
    case _ => WT_STRING
  }

  function Zeros(n: nat): (bs: seq<byte>)
    ensures |bs| == n
  {
    seq(n, _ => 0)
  }

  // ----- Defaults -----

  /** The value a field entry is initialized to: submessages recursively, others from the default or to zero. */
  function DefaultValue(f: Field): Value
    decreases f, 0
  {
    match f.ltype
    case Submessage(fs) => Sub(Defaults(fs))
    case ByteArray | Text => if f.default.Some? then f.default.value else Buf([])
    case FixedBytes => if f.default.Some? then f.default.value else Buf(Zeros(f.dataSize))
    case _ => if f.default.Some? then f.default.value else Num(0)
  }

  /** Array contents are left uninitialized, and so are unions: only the count and the which_ tag are cleared. */
  function DefaultSlot(f: Field): Slot
    decreases f, 1
  {
    match f.htype
    case Optional => Opt(false, DefaultValue(f))
    case Repeated | FixedCount => Many([])
    case _ => One(DefaultValue(f))
  }

  function DefaultSlots(fs: seq<Field>): (slots: seq<Slot>)
    ensures |slots| == |fs|
    ensures forall i | 0 <= i < |fs| :: slots[i] == DefaultSlot(fs[i])
    decreases fs, 2
  {
    if fs == [] then [] else [DefaultSlot(fs[0])] + DefaultSlots(fs[1..])
  }

  function Defaults(fs: seq<Field>): Message
    decreases fs, 3
  {
    Message(DefaultSlots(fs), map[])
  }

  // ----- Descriptors the generator produces -----

  predicate DistinctTags(fs: seq<Field>) {
    forall i, j | 0 <= i < j < |fs| :: fs[i].tag != fs[j].tag
  }

  /** Tags are distinct field numbers, integers have C widths, and sizes fit pb_size_t. */
  predicate WellFormedField(f: Field)
    decreases f, 0
  {
    && 1 <= f.tag < 0x2000_0000
    && (f.ltype.Varint? || f.ltype.Uvarint? || f.ltype.Svarint? ==> IntegerWidth(f.dataSize))
    && f.dataSize <= SIZE_MAX
    && f.arraySize <= SIZE_MAX
    && (f.ltype.Submessage? ==> WellFormed(f.ltype.fields))
  }

  predicate WellFormed(fs: seq<Field>)
    decreases fs, 1
  {
    && DistinctTags(fs)
    && forall i | 0 <= i < |fs| :: WellFormedField(fs[i])
  }

  // ----- Structs of a descriptor -----

  /** The value is one the field's C type can hold. */
  predicate HasType(f: Field, v: Value)
    decreases f, 0
  {
    match f.ltype
    case Varint => v.Num? && InSigned(v.n, f.dataSize)
    case Uvarint => v.Num? && InUnsigned(v.n, f.dataSize)
    case Svarint => v.Num? && InSigned(v.n, f.dataSize)
    case Fixed32 => v.Num? && InUnsigned(v.n, 4)
    case Fixed64 => v.Num? && InUnsigned(v.n, 8)
    case ByteArray => v.Buf? && |v.b| <= SIZE_MAX
    case Text => v.Buf? && |v.b| <= f.dataSize
    case FixedBytes => v.Buf? && |v.b| == f.dataSize
    case Submessage(fs) => v.Sub? && Typed(fs, v.m)
  }

  predicate SlotHasType(f: Field, s: Slot)
    decreases f, 1
  {
    match f.htype
    case Optional => s.Opt? && HasType(f, s.v)
    case Repeated => s.Many? && |s.items| <= SIZE_MAX && forall i | 0 <= i < |s.items| :: HasType(f, s.items[i])
    case FixedCount => s.Many? && |s.items| == f.arraySize && forall i | 0 <= i < |s.items| :: HasType(f, s.items[i])
    case _ => s.One? && HasType(f, s.v)
  }

  predicate Typed(fs: seq<Field>, m: Message)
    decreases fs, 2
  {
    && |m.slots| == |fs|
    && forall i | 0 <= i < |fs| :: SlotHasType(fs[i], m.slots[i])
  }
}
