/** What the decoder makes of its input, as functions; nesting terminates on the bytes left, not on the descriptor. */
module PbDecode {
  import opened Bytes
  import opened PbTypes
  import Varint

  /** The struct being filled, the required fields seen, and the array of fixed count being received. */
  datatype State = State(msg: Message, seen: set<nat>, fixedField: Option<nat>, fixedCount: nat)

  /** One turn of the decoding loop: an error, the end of the message, or n bytes consumed. */
  datatype Turn = Error | Stop | Next(st: State, n: nat)

  /** The loop as a whole: an error, or the final state and whether a zero tag ended it early. */
  datatype Outcome = Failed | Ended(st: State, terminated: bool)

  function Start(m: Message): State {
    State(m, {}, None, 0)
  }

  /** The index of the field with the tag, |fs| when there is none. */
  function Find(fs: seq<Field>, tag: nat): (i: nat)
    ensures i <= |fs|
    ensures i < |fs| ==> fs[i].tag == tag
    ensures forall j | 0 <= j < i :: fs[j].tag != tag
  {
    if fs == [] || fs[0].tag == tag then 0 else 1 + Find(fs[1..], tag)
  }

  function Skip(wireType: nat, bs: seq<byte>): (p: Parse<()>)
    ensures p.Got? ==> p.n <= |bs|
  {
    if wireType == WT_VARINT then Varint.Skip(bs)
    else if wireType == WT_64BIT then if |bs| < 8 then Fail else Got((), 8)
    else if wireType == WT_32BIT then if |bs| < 4 then Fail else Got((), 4)
    else if wireType == WT_STRING then
      match Varint.Decode32(bs)
      case Fail => Fail
      case Got(size, n) => if |bs| - n < size then Fail else Got((), n + size)
    else Fail
  }

  /** A length prefix and the bytes it covers; n counts both. */
  function Delimited(bs: seq<byte>): (p: Parse<seq<byte>>)
    ensures p.Got? ==> 0 < p.n <= |bs| && |p.val| < |bs|
  {
    match Varint.Decode32(bs)
    case Fail => Fail
    case Got(size, n) => if |bs| - n < size then Fail else Got(bs[n..n + size], n + size)
  }

  /** The integer a decoded varint stores, None when the field cannot hold it. Signed fields of at most 32 bits first
      drop the high half, so that a 32-bit sign extension is accepted. */
  function StoredInteger(f: Field, u: nat): Option<int> {
    if !IntegerWidth(f.dataSize) then None
    else if f.ltype.Uvarint? then if InUnsigned(u, f.dataSize) then Some(u) else None
    else
      var v := if f.ltype.Svarint? then Varint.UnZigZag(u) else ToSigned(u, if f.dataSize == 8 then 8 else 4);
      if ToSigned(v, f.dataSize) == v then Some(v) else None
  }

  function DecodeInteger(f: Field, bs: seq<byte>): (p: Parse<Value>)
    ensures p.Got? ==> 0 < p.n <= |bs|
  {
    match Varint.Decode(bs)
    case Fail => Fail
    case Got(u, n) =>
      match StoredInteger(f, u)
      case None => Fail
      case Some(v) => Got(Num(v), n)
  }

  function DecodeBuffer(f: Field, bs: seq<byte>): (p: Parse<Value>)
    ensures p.Got? ==> 0 < p.n <= |bs|
  {
    match Varint.Decode32(bs)
    case Fail => Fail
    case Got(size, n) =>
      if size > SIZE_MAX then Fail
      else if f.ltype.FixedBytes? && size == 0 then Got(Buf(Zeros(f.dataSize)), n)
      else if |bs| - n < size then Fail
      else if f.ltype.ByteArray? && size + BYTES_HEADER > f.dataSize then Fail
      else if f.ltype.Text? && size + 1 > f.dataSize then Fail
      else if f.ltype.FixedBytes? && size != f.dataSize then Fail
      else Got(Buf(bs[n..n + size]), n + size)
  }

  function DecodeScalar(f: Field, bs: seq<byte>): (p: Parse<Value>)
    ensures p.Got? ==> 0 < p.n <= |bs|
  {
    if f.ltype.Varint? || f.ltype.Uvarint? || f.ltype.Svarint? then DecodeInteger(f, bs)
    else if f.ltype.Fixed32? then if |bs| < 4 then Fail else Got(Num(FromLittleEndian(bs[..4])), 4)
    else if f.ltype.Fixed64? then if |bs| < 8 then Fail else Got(Num(FromLittleEndian(bs[..8])), 8)
    else DecodeBuffer(f, bs)
  }

  function Put(items: seq<Value>, k: nat, v: Value): seq<Value> {
    if k < |items| then items[k := v] else items + [v]
  }

  /** The entries of a packed array; it must end exactly when the input does. */
  function DecodePacked(f: Field, items: seq<Value>, k: nat, bs: seq<byte>): (r: Option<(seq<Value>, nat)>)
    decreases |bs|
  {
    if bs == [] then Some((items, k))
    else if k >= f.arraySize then None
    else
      match DecodeScalar(f, bs)
      case Fail => None
      case Got(v, n) => DecodePacked(f, Put(items, k, v), k + 1, bs[n..])
  }

  /** Array entries start from defaults, other submessages from what is already stored. */
  function Initial(f: Field, stored: Value): Message
    requires f.ltype.Submessage?
  {
    if f.htype.Repeated? || f.htype.FixedCount? || !stored.Sub? then Defaults(f.ltype.fields) else stored.m
  }

  function DecodeValue(f: Field, stored: Value, bs: seq<byte>): (p: Parse<Value>)
    ensures p.Got? ==> 0 < p.n <= |bs|
    decreases |bs|, 1
  {
    if !f.ltype.Submessage? then DecodeScalar(f, bs)
    else
      match Delimited(bs)
      case Fail => Fail
      case Got(body, n) =>
        match Decode(f.ltype.fields, Initial(f, stored), body)
        case None => Fail
        case Some(m) => Got(Sub(m), n)
  }

  /** One array field on the wire: several packed entries, or one entry. */
  function DecodeArray(f: Field, items: seq<Value>, k: nat, wireType: nat, bs: seq<byte>)
    : (p: Parse<(seq<Value>, nat)>)
    ensures p.Got? ==> p.n <= |bs|
    decreases |bs|, 3
  {
    if wireType == WT_STRING && Packable(f.ltype) then
      match Delimited(bs)
      case Fail => Fail
      case Got(body, n) =>
        match DecodePacked(f, items, k, body)
        case None => Fail
        case Some(r) => Got(r, n)
    else if k >= f.arraySize then Fail
    else
      match DecodeValue(f, Num(0), bs)
      case Fail => Fail
      case Got(v, n) => Got((Put(items, k, v), k + 1), n)
  }

  function Items(s: Slot): seq<Value> {
    if s.Many? then s.items else []
  }

  function SlotOld(f: Field, s: Slot): Value {
    match s
    case One(v) => if f.htype.Oneof? && f.ltype.Submessage? then DefaultValue(f) else v
    case Opt(_, v) => v
    case Many(_) => DefaultValue(f)
  }

  function SetSlot(st: State, i: nat, s: Slot): State {
    if i < |st.msg.slots| then st.(msg := st.msg.(slots := st.msg.slots[i := s])) else st
  }

  /** Switching to another array of fixed count is an error while the previous one is incomplete. */
  function EnterFixed(fs: seq<Field>, i: nat, st: State): Option<State> {
    if st.fixedField == Some(i) then Some(st)
    else if FixedComplete(fs, st) then Some(st.(fixedField := Some(i), fixedCount := 0))
    else None
  }

  predicate FixedComplete(fs: seq<Field>, st: State) {
    st.fixedField.Some? && st.fixedField.value < |fs| ==> st.fixedCount == fs[st.fixedField.value].arraySize
  }

  /** Field i, whose tag has been read. */
  function DecodeField(fs: seq<Field>, i: nat, wireType: nat, st: State, bs: seq<byte>): (t: Turn)
    requires i < |fs|
    ensures t.Next? ==> t.n <= |bs|
    decreases |bs|, 4
  {
    var f := fs[i];
    var s := if i < |st.msg.slots| then st.msg.slots[i] else Many([]);
    if f.htype.Repeated? then
      match DecodeArray(f, Items(s), |Items(s)|, wireType, bs)
      case Fail => Error
      case Got(r, n) => Next(SetSlot(st, i, Many(r.0)), n)
    else if f.htype.FixedCount? then
      match EnterFixed(fs, i, st)
      case None => Error
      case Some(st1) =>
        match DecodeArray(f, Items(s), st1.fixedCount, wireType, bs)
        case Fail => Error
        case Got(r, n) => Next(SetSlot(st1, i, Many(r.0)).(fixedCount := r.1), n)
    else
      match DecodeValue(f, SlotOld(f, s), bs)
      case Fail => Error
      case Got(v, n) => Next(Store(f, i, st, v), n)
  }

  /** A single value stored: the has_ flag, the which_ tag and the required-field mask follow it. */
  function Store(f: Field, i: nat, st: State, v: Value): State {
    var st1 := SetSlot(st, i, if f.htype.Optional? then Opt(true, v) else One(v));
    if f.htype.Required? then st1.(seen := st1.seen + {i})
    else if f.htype.Oneof? then st1.(msg := st1.msg.(which := st1.msg.which[f.htype.union := f.tag]))
    else st1
  }

  /** One turn of the loop: a tag and what follows it. An empty descriptor's terminator entry looks like a required
      integer field of tag 0 and width 0, which no input satisfies. */
  function Step(fs: seq<Field>, st: State, bs: seq<byte>): (t: Turn)
    requires bs != []
    ensures t.Next? ==> 0 < t.n <= |bs|
    decreases |bs|, 0
  {
    match Varint.Decode32(bs)
    case Fail => Error
    case Got(key, n) =>
      if key == 0 then Stop
      else
        var tag, wireType, rest := key / 8, key % 8, bs[n..];
        var i := Find(fs, tag);
        if i == |fs| then
          if fs == [] && tag == 0 then Error
          else
            match Skip(wireType, rest)
            case Fail => Error
            case Got(_, k) => Next(st, n + k)
        else
          match DecodeField(fs, i, wireType, st, rest)
          case Next(st1, k) => Next(st1, n + k)
          case _ => Error
  }

  function Run(fs: seq<Field>, st: State, bs: seq<byte>): Outcome
    decreases |bs|, 1
  {
    if bs == [] then Ended(st, false)
    else
      match Step(fs, st, bs)
      case Error => Failed
      case Stop => Ended(st, true)
      case Next(st1, n) => Run(fs, st1, bs[n..])
  }

  /** How many of the first i fields are required. */
  function RequiredBefore(fs: seq<Field>, i: nat): nat
    requires i <= |fs|
  {
    if i == 0 then 0 else RequiredBefore(fs, i - 1) + if fs[i - 1].htype.Required? then 1 else 0
  }

  /** Only the first sixty-four required fields are checked. */
  predicate RequiredSeen(fs: seq<Field>, seen: set<nat>) {
    forall i | 0 <= i < |fs| && fs[i].htype.Required? && RequiredBefore(fs, i) < MAX_REQUIRED_FIELDS :: i in seen
  }

  /** pb_decode_noinit: the fields of bs merged into m. */
  function Decode(fs: seq<Field>, m: Message, bs: seq<byte>): Option<Message>
    decreases |bs|, 2
  {
    match Run(fs, Start(m), bs)
    case Failed => None
    case Ended(st, _) => if FixedComplete(fs, st) && RequiredSeen(fs, st.seen) then Some(st.msg) else None
  }
}
