/** What stands on the wire, by lengths alone: where fields begin, and how a decoder passes those it does not know. */
module PbWire {
  import opened Bytes
  import opened PbTypes
  import opened PbEncode
  import opened PbDecode
  import opened PbRoundTrip
  import Varint

  // ----- Field boundaries -----

  predicate IsArray(f: Field) {
    f.htype.Repeated? || f.htype.FixedCount?
  }

  /** The wire type a decoder reads a field under, whatever its key says: the type's own, and WT_STRING for an array that
      the key says is packed. */
  function OwnWireType(f: Field, wireType: nat): nat {
    if IsArray(f) && Packable(f.ltype) && wireType == WT_STRING then WT_STRING else WireType(f.ltype)
  }

  /** The wire type a decoder reads behind a key; what the descriptor does not have, it reads as the key says. */
  function ReadAs(fs: seq<Field>, key: nat): nat {
    var i := Find(fs, key / 8);
    if i == |fs| then key % 8 else OwnWireType(fs[i], key % 8)
  }

  /** The tags that stand at field boundaries of bs, up to its end or a zero. */
  function TagsAt(fs: seq<Field>, bs: seq<byte>): seq<nat>
    decreases |bs|
  {
    if bs == [] then []
    else
      match Varint.Decode32(bs)
      case Fail => []
      case Got(key, n) =>
        if key == 0 then []
        else
          match Skip(ReadAs(fs, key), bs[n..])
          case Fail => []
          case Got(_, k) => [key / 8] + TagsAt(fs, bs[n + k..])
  }

  /** The same with no descriptor at all: every key says how it is to be read. */
  function TagsOnWire(bs: seq<byte>): seq<nat> {
    TagsAt([], bs)
  }

  /** Every key has the wire type that the field of its tag is written under. */
  predicate Conforms(fs: seq<Field>, bs: seq<byte>)
    decreases |bs|
  {
    bs == [] ||
    match Varint.Decode32(bs)
    case Fail => true
    case Got(key, n) =>
      key == 0 ||
      (ReadAs(fs, key) == key % 8 &&
       match Skip(key % 8, bs[n..])
       case Fail => true
       case Got(_, k) => Conforms(fs, bs[n + k..]))
  }

  lemma {:induction false} ConformingTags(fs: seq<Field>, bs: seq<byte>)
    requires Conforms(fs, bs)
    ensures TagsAt(fs, bs) == TagsOnWire(bs)
    decreases |bs|
  {
    var p := Varint.Decode32(bs);
    if bs != [] && p.Got? && p.val != 0 {
      var s := Skip(p.val % 8, bs[p.n..]);
      if s.Got? {
        ConformingTags(fs, bs[p.n + s.n..]);
      }
    }
  }

  // ----- What a decoder consumes -----

  lemma {:induction false} DigitsExtent(bs: seq<byte>, limit: nat)
    requires Varint.Digits(bs, limit).Got?
    ensures Varint.Skip(bs) == Got((), Varint.Digits(bs, limit).n)
  {
    if bs[0] >= 128 {
      DigitsExtent(bs[1..], limit - 1);
    }
  }

  lemma ScalarExtent(f: Field, bs: seq<byte>)
    requires !f.ltype.Submessage? && DecodeScalar(f, bs).Got?
    ensures Skip(WireType(f.ltype), bs) == Got((), DecodeScalar(f, bs).n)
  {
    if f.ltype.Varint? || f.ltype.Uvarint? || f.ltype.Svarint? {
      DigitsExtent(bs, Varint.MAX_VARINT_BYTES);
    }
  }

  lemma ValueExtent(f: Field, stored: Value, bs: seq<byte>)
    requires DecodeValue(f, stored, bs).Got?
    ensures Skip(WireType(f.ltype), bs) == Got((), DecodeValue(f, stored, bs).n)
  {
    if !f.ltype.Submessage? {
      ScalarExtent(f, bs);
    }
  }

  lemma ArrayExtent(f: Field, items: seq<Value>, k: nat, wireType: nat, bs: seq<byte>)
    requires IsArray(f) && DecodeArray(f, items, k, wireType, bs).Got?
    ensures Skip(OwnWireType(f, wireType), bs) == Got((), DecodeArray(f, items, k, wireType, bs).n)
  {
    if !(wireType == WT_STRING && Packable(f.ltype)) {
      ValueExtent(f, Num(0), bs);
    }
  }

  /** A field that decodes takes what skipping it would take, and marks itself if it is required. */
  lemma FieldExtent(fs: seq<Field>, i: nat, wireType: nat, st: State, bs: seq<byte>)
    requires i < |fs| && DecodeField(fs, i, wireType, st, bs).Next?
    ensures Skip(OwnWireType(fs[i], wireType), bs) == Got((), DecodeField(fs, i, wireType, st, bs).n)
    ensures DecodeField(fs, i, wireType, st, bs).st.seen == st.seen + if fs[i].htype.Required? then {i} else {}
  {
    var f := fs[i];
    var s := if i < |st.msg.slots| then st.msg.slots[i] else Many([]);
    if f.htype.Repeated? {
      ArrayExtent(f, Items(s), |Items(s)|, wireType, bs);
    } else if f.htype.FixedCount? {
      ArrayExtent(f, Items(s), EnterFixed(fs, i, st).value.fixedCount, wireType, bs);
    } else {
      ValueExtent(f, SlotOld(f, s), bs);
    }
  }

  /** Some of the tags is that of field i. */
  ghost predicate Marks(fs: seq<Field>, tags: seq<nat>, i: nat) {
    exists t | t in tags :: Find(fs, t) == i
  }

  lemma MarksCons(fs: seq<Field>, t: nat, tags: seq<nat>)
    ensures forall i: nat :: Marks(fs, [t] + tags, i) <==> Find(fs, t) == i || Marks(fs, tags, i)
  {
    forall i: nat ensures Marks(fs, [t] + tags, i) <==> Find(fs, t) == i || Marks(fs, tags, i) {
      assert t in [t] + tags && forall u | u in tags :: u in [t] + tags;
    }
  }

  lemma StepExtent(fs: seq<Field>, st: State, bs: seq<byte>)
    requires bs != [] && Step(fs, st, bs).Next?
    ensures var (key, t) := (Varint.Decode32(bs), Step(fs, st, bs));
            && key.Got? && key.val != 0 && t.n >= key.n
            && Skip(ReadAs(fs, key.val), bs[key.n..]) == Got((), t.n - key.n)
            && var i := Find(fs, key.val / 8);
               t.st.seen == st.seen + if i < |fs| && fs[i].htype.Required? then {i} else {}
  {
    var key := Varint.Decode32(bs);
    var i := Find(fs, key.val / 8);
    if i < |fs| {
      FieldExtent(fs, i, key.val % 8, st, bs[key.n..]);
    }
  }

  /** The required fields seen are those whose tags stand at the field boundaries. */
  lemma {:induction false} SeenExactly(fs: seq<Field>, st: State, bs: seq<byte>)
    requires Run(fs, st, bs).Ended?
    ensures forall i: nat ::
              i in Run(fs, st, bs).st.seen
              <==> i in st.seen || (i < |fs| && fs[i].htype.Required? && Marks(fs, TagsAt(fs, bs), i))
    decreases |bs|
  {
    hide Step, ReadAs, Skip, Marks, Find;
    if bs == [] || Step(fs, st, bs).Stop? {
      NoTags(fs, st, bs);
    } else {
      StepExtent(fs, st, bs);
      var t := Step(fs, st, bs);
      SeenExactly(fs, t.st, bs[t.n..]);
      MarksCons(fs, Varint.Decode32(bs).val / 8, TagsAt(fs, bs[t.n..]));
    }
  }

  lemma NoTags(fs: seq<Field>, st: State, bs: seq<byte>)
    requires bs == [] || Step(fs, st, bs).Stop?
    ensures forall i: nat :: !Marks(fs, TagsAt(fs, bs), i)
  {
    assert TagsAt(fs, bs) == [];
  }

  /** One of the fields whose presence is checked. */
  predicate IsChecked(fs: seq<Field>, i: nat) {
    i < |fs| && fs[i].htype.Required? && RequiredBefore(fs, i) < MAX_REQUIRED_FIELDS
  }

  /** The tag of every required field that is checked stands at a field boundary. */
  predicate RequiredPresent(fs: seq<Field>, bs: seq<byte>) {
    forall i | 0 <= i < |fs| && IsChecked(fs, i) :: fs[i].tag in TagsAt(fs, bs)
  }

  /** Input decodes only if every required field is there; with distinct tags, it decodes exactly if besides every field
      can be decoded and arrays of fixed count are complete. */
  lemma RequiredDecides(fs: seq<Field>, m: Message, bs: seq<byte>)
    ensures Decode(fs, m, bs).Some? ==> RequiredPresent(fs, bs)
    ensures !RequiredPresent(fs, bs) ==> Decode(fs, m, bs) == None
    ensures DistinctTags(fs) ==>
              (Decode(fs, m, bs).Some? <==>
                 && Run(fs, Start(m), bs).Ended? && FixedComplete(fs, Run(fs, Start(m), bs).st)
                 && RequiredPresent(fs, bs))
  {
    hide TagsAt;
    if Run(fs, Start(m), bs).Ended? {
      SeenExactly(fs, Start(m), bs);
      if DistinctTags(fs) {
        forall i | 0 <= i < |fs| ensures Find(fs, fs[i].tag) == i {
          FindField(fs, i);
        }
      }
    }
  }

  /** Where the wire types conform, the keys alone say where the required fields must be. */
  lemma RequiredOnWire(fs: seq<Field>, m: Message, bs: seq<byte>, i: nat)
    requires Conforms(fs, bs) && IsChecked(fs, i) && fs[i].tag !in TagsOnWire(bs)
    ensures Decode(fs, m, bs) == None
  {
    ConformingTags(fs, bs);
    RequiredDecides(fs, m, bs);
  }

  /** Two required integers. */
  function TwoIntegers(): (fs: seq<Field>)
    ensures |fs| == 2
  {
    [Field(1, Uvarint, Required, 4, 0, None), Field(2, Uvarint, Required, 4, 0, None)]
  }

  lemma FindTwo()
    ensures Find(TwoIntegers(), 1) == 0 && Find(TwoIntegers(), 2) == 1
  {
    assert TwoIntegers()[1..][0].tag == 2;
  }

  /** A key and a number of one byte each, whatever wire type the key gives. */
  lemma ByteStep(i: nat, st: State, key: byte, number: byte, rest: seq<byte>)
    requires i < 2 && key < 128 && key / 8 == i + 1 && number < 128
    ensures var (fs, bs) := (TwoIntegers(), [key, number] + rest);
            && Step(fs, st, bs) == Next(Store(fs[i], i, st, Num(number)), 2)
            && TagsAt(fs, bs) == [i + 1] + TagsAt(fs, rest)
  {
    hide Store, Find;
    FindTwo();
    assert Find(TwoIntegers(), i + 1) == i;
    var bs := [key, number] + rest;
    assert bs[1..] == [number] + rest && bs[2..] == rest;
    assert Varint.Decode([number] + rest) == Got(number as nat, 1);
    var f := TwoIntegers()[i];
    assert DecodeScalar(f, [number] + rest) == Got(Num(number), 1);
    assert forall stored :: DecodeValue(f, stored, [number] + rest) == Got(Num(number), 1);
    assert DecodeField(TwoIntegers(), i, key % 8, st, [number] + rest) == Next(Store(f, i, st, Num(number)), 1);
  }

  lemma NoTagsLeft(fs: seq<Field>)
    ensures TagsAt(fs, []) == []
  {
  }

  /** Where they do not, a decoder finds fields inside what the keys call a length and its content: the key of the first
      of two integers says WT_STRING, its length is taken as the integer, and the content holds the second. */
  lemma FoundInside()
    ensures var (fs, bs) := (TwoIntegers(), [0x0A, 0x02, 0x10, 0x05]);
            && WellFormed(fs) && TagsOnWire(bs) == [1] && TagsAt(fs, bs) == [1, 2]
            && Decode(fs, Defaults(fs), bs) == Some(Message([One(Num(2)), One(Num(5))], map[]))
  {
    hide Step, TagsAt;
    var fs, inner: seq<byte> := TwoIntegers(), [0x10, 0x05];
    var bs := [0x0A, 0x02] + inner;
    var st0 := Start(Defaults(fs));
    assert st0.msg.slots == [One(Num(0)), One(Num(0))];
    ByteStep(0, st0, 0x0A, 0x02, inner);
    var st1 := Store(fs[0], 0, st0, Num(2));
    assert [0x10, 0x05] + [] == inner && bs[2..] == inner && inner[2..] == [] && bs == [0x0A, 0x02, 0x10, 0x05];
    ByteStep(1, st1, 0x10, 0x05, []);
    var st2 := Store(fs[1], 1, st1, Num(5));
    assert Run(fs, st1, inner) == Ended(st2, false);
    assert st2.msg.slots == [One(Num(2)), One(Num(5))];
    assert TagsAt(fs, []) == [] by {
      NoTagsLeft(fs);
    }
    OneString(0x0A, 0x02, inner);
  }

  /** A key that gives WT_STRING, and what it covers. */
  lemma OneString(key: byte, size: byte, content: seq<byte>)
    requires 0 < key < 128 && key % 8 == WT_STRING && size < 128 && |content| == size
    ensures TagsOnWire([key, size] + content) == [key / 8]
  {
    var bs := [key, size] + content;
    assert bs[1..] == [size] + content && bs[1 + (1 + size as nat)..] == [];
    assert Varint.Decode32(bs) == Got(key as nat, 1) && ReadAs([], key) == WT_STRING;
    assert Skip(WT_STRING, bs[1..]) == Got((), 1 + size);
    var none: seq<Field> := [];
    NoTagsLeft(none);
    assert [key / 8] + TagsAt(none, []) == [key / 8];
  }

  // ----- Passing what the encoder wrote -----

  lemma NumberSkips(u: nat, tail: seq<byte>)
    requires u < TWO_64
    ensures Varint.Skip(Varint.Encode(u) + tail) == Got((), |Varint.Encode(u)|)
  {
    Varint.RoundTrip(u, tail);
    DigitsExtent(Varint.Encode(u) + tail, Varint.MAX_VARINT_BYTES);
  }

  lemma BytesSkip(b: seq<byte>, tail: seq<byte>)
    requires |b| < TWO_32
    ensures Skip(WT_STRING, LengthPrefixed(b) + tail) == Got((), |LengthPrefixed(b)|)
  {
    PrefixRoundTrip(b, tail);
  }

  /** Whoever skips a value by its wire type comes out behind it. */
  lemma ValueSkips(f: Field, v: Value, tail: seq<byte>)
    requires WellFormedField(f) && HasType(f, v) && EncodeValue(f, v).Some?
    requires f.ltype.Submessage? ==> ShortCode(EncodeMessage(f.ltype.fields, v.m))
    ensures Skip(WireType(f.ltype), EncodeValue(f, v).value + tail) == Got((), |EncodeValue(f, v).value|)
  {
    hide EncodeMessage, Typed, WellFormed, WireInteger, LengthPrefixed, Varint.Skip, Varint.Decode32, TextContent;
    if f.ltype.Varint? || f.ltype.Uvarint? || f.ltype.Svarint? {
      StoredWireInteger(f, v.n);
      NumberSkips(WireInteger(f, v.n), tail);
    } else if f.ltype.Submessage? {
      BytesSkip(EncodeMessage(f.ltype.fields, v.m).value, tail);
    } else if !f.ltype.Fixed32? && !f.ltype.Fixed64? {
      BytesSkip(if f.ltype.Text? then TextContent(v.b) else v.b, tail);
    }
  }

  /** And whoever skips a packed array as WT_STRING. */
  lemma PackedSkips(f: Field, items: seq<Value>, tail: seq<byte>)
    requires EncodePacked(f, items).Some? && ShortCode(EncodePacked(f, items))
    ensures var e := LengthPrefixed(EncodePacked(f, items).value); Skip(WT_STRING, e + tail) == Got((), |e|)
  {
    PrefixRoundTrip(EncodePacked(f, items).value, tail);
  }

  /** A key is read back from the front of what it stands before. */
  lemma KeyInFront(tag: nat, wireType: nat, body: seq<byte>, rest: seq<byte>)
    requires 1 <= tag < 0x2000_0000 && wireType < 8
    ensures var (key, bs) := (8 * tag + wireType, Tag(tag, wireType) + body + rest);
            && key / 8 == tag && key % 8 == wireType && bs != []
            && Varint.Decode32(bs).Got? && Varint.Decode32(bs).val == key
            && var n := Varint.Decode32(bs).n;
               bs[n..] == body + rest && n + |body| <= |bs| && bs[n + |body|..] == rest
  {
    var key := 8 * tag + wireType;
    var bs := Tag(tag, wireType) + body + rest;
    assert bs == Varint.Encode(key) + (body + rest);
    Varint.Decode32OfEncode(key, body + rest);
    assert bs[|Varint.Encode(key)|..] == body + rest;
    assert bs[|Varint.Encode(key)| + |body|..] == rest;
  }

  /** A tag the descriptor does not have, in front of something that can be skipped. */
  lemma TagPassed(gs: seq<Field>, st: State, tag: nat, wireType: nat, body: seq<byte>, rest: seq<byte>)
    requires 1 <= tag < 0x2000_0000 && wireType < 8 && Find(gs, tag) == |gs|
    requires Skip(wireType, body + rest) == Got((), |body|)
    ensures Run(gs, st, Tag(tag, wireType) + body + rest) == Run(gs, st, rest)
  {
    hide Skip, Find, Varint.Decode32, Tag;
    KeyInFront(tag, wireType, body, rest);
    var bs := Tag(tag, wireType) + body + rest;
    assert Step(gs, st, bs) == Next(st, Varint.Decode32(bs).n + |body|);
  }

  lemma {:induction false} EntriesPassed(gs: seq<Field>, st: State, f: Field, items: seq<Value>, rest: seq<byte>)
    requires WellFormedField(f) && Find(gs, f.tag) == |gs|
    requires forall j | 0 <= j < |items| :: HasType(f, items[j]) && ShortValue(f, items[j])
    requires EncodeUnpacked(f, items).Some?
    ensures Run(gs, st, EncodeUnpacked(f, items).value + rest) == Run(gs, st, rest)
    decreases items
  {
    hide Run, Find, PiecesShort, Typed;
    if items == [] {
      assert EncodeUnpacked(f, items).value + rest == rest;
    } else {
      var e, more := EncodeValue(f, items[0]).value, EncodeUnpacked(f, items[1..]).value;
      assert EncodeUnpacked(f, items).value + rest == Tag(f.tag, WireType(f.ltype)) + e + (more + rest);
      ValueSkips(f, items[0], more + rest);
      TagPassed(gs, st, f.tag, WireType(f.ltype), e, more + rest);
      EntriesPassed(gs, st, f, items[1..], rest);
    }
  }

  /** What was written for a field that the descriptor does not have changes nothing. */
  lemma FieldPassed(gs: seq<Field>, st: State, f: Field, s: Slot, which: map<nat, nat>, rest: seq<byte>)
    requires WellFormedField(f) && SlotHasType(f, s) && Find(gs, f.tag) == |gs|
    requires EncodeField(f, s, which).Some? && ShortSlot(f, s, which)
    ensures Run(gs, st, EncodeField(f, s, which).value + rest) == Run(gs, st, rest)
  {
    hide Run, Find, PiecesShort, Typed;
    var e := EncodeField(f, s, which).value;
    if e == [] {
      assert e + rest == rest;
    } else if s.Many? && Packable(f.ltype) {
      PackedSkips(f, s.items, rest);
      TagPassed(gs, st, f.tag, WT_STRING, LengthPrefixed(EncodePacked(f, s.items).value), rest);
    } else if s.Many? {
      EntriesPassed(gs, st, f, s.items, rest);
    } else {
      ValueSkips(f, SlotValue(s), rest);
      TagPassed(gs, st, f.tag, WireType(f.ltype), EncodeValue(f, SlotValue(s)).value, rest);
    }
  }

  // ----- What the encoder puts at field boundaries -----

  /** The tags written for one field: one for a single value that is there, one for an array of numbers, which is packed,
      and one for each entry of any other array. */
  function TagsOf(f: Field, s: Slot, which: map<nat, nat>): seq<nat> {
    match s
    case Many(items) =>
      if f.ltype.ByteArray? || f.ltype.Text? || f.ltype.FixedBytes? || f.ltype.Submessage?
      then seq(|items|, _ => f.tag)
      else if items == [] then [] else [f.tag]
    case _ => if Present(f, s, which) then [f.tag] else []
  }

  function TagsWritten(fs: seq<Field>, slots: seq<Slot>, which: map<nat, nat>): seq<nat> {
    if fs == [] || slots == [] then [] else TagsOf(fs[0], slots[0], which) + TagsWritten(fs[1..], slots[1..], which)
  }

  /** These bytes bring these tags to the wire, each with the wire type its field is read under. */
  ghost predicate Brings(fs: seq<Field>, e: seq<byte>, tags: seq<nat>, rest: seq<byte>) {
    && TagsOnWire(e + rest) == tags + TagsOnWire(rest)
    && (Conforms(fs, rest) ==> Conforms(fs, e + rest))
  }

  lemma BringsTag(fs: seq<Field>, i: nat, wireType: nat, body: seq<byte>, rest: seq<byte>)
    requires WellFormed(fs) && i < |fs| && wireType < 8 && OwnWireType(fs[i], wireType) == wireType
    requires Skip(wireType, body + rest) == Got((), |body|)
    ensures Brings(fs, Tag(fs[i].tag, wireType) + body, [fs[i].tag], rest)
  {
    hide Skip, Find, OwnWireType, WellFormed, Varint.Decode32, Tag;
    var tag := fs[i].tag;
    TagInRange(fs, i);
    KeyInFront(tag, wireType, body, rest);
    var none: seq<Field> := [];
    assert ReadAs(none, 8 * tag + wireType) == wireType && ReadAs(fs, 8 * tag + wireType) == wireType;
    assert TagsAt(none, Tag(tag, wireType) + body + rest) == [tag] + TagsAt(none, rest);
  }

  lemma TagInRange(fs: seq<Field>, i: nat)
    requires WellFormed(fs) && i < |fs|
    ensures 1 <= fs[i].tag < 0x2000_0000 && WellFormedField(fs[i]) && Find(fs, fs[i].tag) == i
    ensures var none: seq<Field> := []; forall t :: Find(none, t) == 0
  {
    FindField(fs, i);
  }

  lemma BringsMore(fs: seq<Field>, a: seq<byte>, s: seq<nat>, b: seq<byte>, t: seq<nat>, rest: seq<byte>)
    requires Brings(fs, a, s, b + rest) && Brings(fs, b, t, rest)
    ensures Brings(fs, a + b, s + t, rest)
  {
    hide TagsAt, Conforms;
    assert a + b + rest == a + (b + rest);
    assert s + (t + TagsOnWire(rest)) == (s + t) + TagsOnWire(rest);
  }

  lemma BringsNothing(fs: seq<Field>, rest: seq<byte>)
    ensures Brings(fs, [], [], rest)
  {
    hide TagsAt, Conforms;
    assert [] + rest == rest && [] + TagsOnWire(rest) == TagsOnWire(rest);
  }

  lemma {:induction false} EntriesOnWire(fs: seq<Field>, i: nat, items: seq<Value>, rest: seq<byte>)
    requires WellFormed(fs) && i < |fs| && !Packable(fs[i].ltype)
    requires forall j | 0 <= j < |items| :: HasType(fs[i], items[j]) && ShortValue(fs[i], items[j])
    requires EncodeUnpacked(fs[i], items).Some?
    ensures Brings(fs, EncodeUnpacked(fs[i], items).value, seq(|items|, _ => fs[i].tag), rest)
    decreases items
  {
    hide Brings, Find, PiecesShort, Typed, DistinctTags;
    var f := fs[i];
    if items == [] {
      BringsNothing(fs, rest);
      assert seq(0, _ => f.tag) == [];
    } else {
      var e, more := EncodeValue(f, items[0]).value, EncodeUnpacked(f, items[1..]).value;
      var head := Tag(f.tag, WireType(f.ltype)) + e;
      assert EncodeUnpacked(f, items).value == head + more;
      assert seq(|items|, _ => f.tag) == [f.tag] + seq(|items[1..]|, _ => f.tag);
      ValueSkips(f, items[0], more + rest);
      BringsTag(fs, i, WireType(f.ltype), e, more + rest);
      EntriesOnWire(fs, i, items[1..], rest);
      BringsMore(fs, head, [f.tag], more, seq(|items[1..]|, _ => f.tag), rest);
    }
  }

  lemma FieldOnWire(fs: seq<Field>, i: nat, s: Slot, which: map<nat, nat>, rest: seq<byte>)
    requires WellFormed(fs) && i < |fs| && SlotHasType(fs[i], s)
    requires EncodeField(fs[i], s, which).Some? && ShortSlot(fs[i], s, which)
    ensures Brings(fs, EncodeField(fs[i], s, which).value, TagsOf(fs[i], s, which), rest)
  {
    hide Brings, Find, PiecesShort, Typed, DistinctTags;
    var f, e := fs[i], EncodeField(fs[i], s, which).value;
    if s.Many? && s.items == [] {
      BringsNothing(fs, rest);
      assert TagsOf(f, s, which) == [];
    } else if s.Many? && Packable(f.ltype) {
      PackedSkips(f, s.items, rest);
      BringsTag(fs, i, WT_STRING, LengthPrefixed(EncodePacked(f, s.items).value), rest);
    } else if s.Many? {
      EntriesOnWire(fs, i, s.items, rest);
    } else if !Present(f, s, which) {
      BringsNothing(fs, rest);
    } else {
      ValueSkips(f, SlotValue(s), rest);
      BringsTag(fs, i, WireType(f.ltype), EncodeValue(f, SlotValue(s)).value, rest);
    }
  }

  lemma {:induction false} FieldsOnWire(fs: seq<Field>, m: Message, i: nat)
    requires WellFormed(fs) && Typed(fs, m) && PiecesShort(fs, m) && i <= |fs|
    requires EncodeFields(fs[i..], m.slots[i..], m.which).Some?
    ensures Brings(fs, EncodeFields(fs[i..], m.slots[i..], m.which).value,
                   TagsWritten(fs[i..], m.slots[i..], m.which), [])
    decreases |fs| - i
  {
    hide Brings, EncodeField, TagsOf, WellFormedField, SlotHasType, ShortSlot, DistinctTags;
    if i == |fs| {
      BringsNothing(fs, []);
    } else {
      assert fs[i..][1..] == fs[i + 1..] && m.slots[i..][1..] == m.slots[i + 1..];
      var e := EncodeField(fs[i], m.slots[i], m.which).value;
      var rest := EncodeFields(fs[i + 1..], m.slots[i + 1..], m.which).value;
      assert rest + [] == rest;
      FieldOnWire(fs, i, m.slots[i], m.which, rest + []);
      FieldsOnWire(fs, m, i + 1);
      BringsMore(fs, e, TagsOf(fs[i], m.slots[i], m.which), rest,
                 TagsWritten(fs[i + 1..], m.slots[i + 1..], m.which), []);
    }
  }

  /** An encoding holds the tags of what is written and no other, in the order of the descriptor, and each under the wire
      type its field is read under. */
  lemma EncodingOnWire(fs: seq<Field>, m: Message)
    requires WellFormed(fs) && Typed(fs, m) && PiecesShort(fs, m) && EncodeMessage(fs, m).Some?
    ensures TagsOnWire(EncodeMessage(fs, m).value) == TagsWritten(fs, m.slots, m.which)
    ensures Conforms(fs, EncodeMessage(fs, m).value)
  {
    hide EncodeFields, TagsWritten, Typed, WellFormed, PiecesShort;
    assert fs[0..] == fs && m.slots[0..] == m.slots;
    FieldsOnWire(fs, m, 0);
    var e := EncodeMessage(fs, m).value;
    var none: seq<Field> := [];
    NoTagsLeft(none);
    assert e + [] == e && TagsWritten(fs, m.slots, m.which) + [] == TagsWritten(fs, m.slots, m.which);
  }

  // ----- A descriptor that lacks some of the fields -----

  predicate Picks(picked: seq<nat>, n: nat) {
    && (forall j | 0 <= j < |picked| :: picked[j] < n)
    && (forall j, k | 0 <= j < k < |picked| :: picked[j] < picked[k])
  }

  function Pick<T>(xs: seq<T>, picked: seq<nat>): (ys: seq<T>)
    requires Picks(picked, |xs|)
    ensures |ys| == |picked| && forall j | 0 <= j < |picked| :: ys[j] == xs[picked[j]]
  {
    seq(|picked|, j requires 0 <= j < |picked| => xs[picked[j]])
  }

  /** The struct's part that belongs to the fields picked. */
  function PickMessage(m: Message, picked: seq<nat>): Message
    requires Picks(picked, |m.slots|)
  {
    Message(Pick(m.slots, picked), m.which)
  }

  lemma PickedKeeps(fs: seq<Field>, m: Message, picked: seq<nat>)
    requires WellFormed(fs) && Typed(fs, m) && PiecesShort(fs, m) && Picks(picked, |fs|)
    ensures var gs := Pick(fs, picked);
            WellFormed(gs) && Typed(gs, PickMessage(m, picked)) && PiecesShort(gs, PickMessage(m, picked))
  {
    hide WellFormedField, SlotHasType, ShortSlot;
  }

  lemma {:induction false} NotFound(gs: seq<Field>, tag: nat)
    requires forall j | 0 <= j < |gs| :: gs[j].tag != tag
    ensures Find(gs, tag) == |gs|
  {
  }

  /** The first k picked are before i, and the others are not. */
  predicate SplitAt(picked: seq<nat>, k: nat, i: nat) {
    && k <= |picked|
    && (forall j | 0 <= j < k :: picked[j] < i) && (forall j | k <= j < |picked| :: i <= picked[j])
  }

  lemma SplitNext(picked: seq<nat>, n: nat, k: nat, i: nat)
    requires Picks(picked, n) && SplitAt(picked, k, i)
    ensures if k < |picked| && picked[k] == i then SplitAt(picked, k + 1, i + 1)
            else SplitAt(picked, k, i + 1) && forall j | 0 <= j < |picked| :: picked[j] != i
  {
  }

  lemma PickBound(picked: seq<nat>, n: nat, j: nat)
    requires Picks(picked, n) && j < |picked|
    ensures picked[j] < n
  {
  }

  lemma SplitEnd(picked: seq<nat>, n: nat, k: nat)
    requires Picks(picked, n) && SplitAt(picked, k, n)
    ensures k == |picked|
  {
    if k < |picked| {
      PickBound(picked, n, k);
    }
  }

  lemma LacksField(fs: seq<Field>, picked: seq<nat>, i: nat)
    requires DistinctTags(fs) && Picks(picked, |fs|) && i < |fs|
    requires forall j | 0 <= j < |picked| :: picked[j] != i
    ensures Find(Pick(fs, picked), fs[i].tag) == |picked|
  {
    NotFound(Pick(fs, picked), fs[i].tag);
  }

  /** The texts of the fields from k on are terminated. */
  predicate TextsFitFrom(gs: seq<Field>, m: Message, k: nat)
    requires |m.slots| == |gs|
  {
    forall j | k <= j < |gs| :: SlotFits(gs[j], m.slots[j], m.which)
  }

  lemma TextsFitNext(gs: seq<Field>, m: Message, k: nat)
    requires |m.slots| == |gs| && k < |gs|
    ensures TextsFitFrom(gs, m, k) <==> SlotFits(gs[k], m.slots[k], m.which) && TextsFitFrom(gs, m, k + 1)
  {
    hide SlotFits;
  }

  lemma NothingLeft(gs: seq<Field>, m: Message, k: nat)
    requires k >= |gs| == |m.slots|
    ensures TextsFitFrom(gs, m, k)
  {
  }

  lemma {:induction false} FieldsPicked(fs: seq<Field>, m: Message, picked: seq<nat>, i: nat, k: nat)
    requires WellFormed(fs) && Typed(fs, m) && PiecesShort(fs, m) && Picks(picked, |fs|)
    requires i <= |fs| && SplitAt(picked, k, i)
    requires EncodeFields(fs[i..], m.slots[i..], m.which).Some?
    ensures var (gs, sub) := (Pick(fs, picked), PickMessage(m, picked));
            Run(gs, After(gs, sub, k), EncodeFields(fs[i..], m.slots[i..], m.which).value)
            == if TextsFitFrom(gs, sub, k)
               then Ended(After(gs, sub, |gs|), false)
               else Failed
    decreases |fs| - i
  {
    hide After, EncodeField, SlotFits, DistinctTags, WellFormedField, SlotHasType, ShortSlot, Find, Step,
         TextsFitFrom;
    var gs, sub := Pick(fs, picked), PickMessage(m, picked);
    PickedKeeps(fs, m, picked);
    if i == |fs| {
      SplitEnd(picked, |fs|, k);
      NothingLeft(gs, sub, k);
    } else {
      assert fs[i..][1..] == fs[i + 1..] && m.slots[i..][1..] == m.slots[i + 1..];
      var rest := EncodeFields(fs[i + 1..], m.slots[i + 1..], m.which).value;
      SplitNext(picked, |fs|, k, i);
      if k < |picked| && picked[k] == i {
        TextsFitNext(gs, sub, k);
        FieldRoundTrip(gs, sub, k, rest);
        FieldsPicked(fs, m, picked, i + 1, k + 1);
      } else {
        LacksField(fs, picked, i);
        FieldPassed(gs, After(gs, sub, k), fs[i], m.slots[i], m.which, rest);
        FieldsPicked(fs, m, picked, i + 1, k);
      }
    }
  }

  /** A decoder whose descriptor lacks some of the fields reads the rest as if only that had been sent. */
  lemma ReadWithFewerFields(fs: seq<Field>, m: Message, picked: seq<nat>)
    requires WellFormed(fs) && Typed(fs, m) && Picks(picked, |fs|)
    requires EncodeMessage(fs, m).Some? && PiecesShort(fs, m)
    ensures var (gs, sub) := (Pick(fs, picked), PickMessage(m, picked));
            Decode(gs, Defaults(gs), EncodeMessage(fs, m).value) ==
            if TextsFit(gs, sub) then Some(Normal(gs, sub)) else None
  {
    hide Run, Step, After, DefaultSlots, EncodeFields, SlotFits, WellFormedField, SlotHasType, ShortSlot,
         DistinctTags;
    var gs, sub := Pick(fs, picked), PickMessage(m, picked);
    assert fs[0..] == fs && m.slots[0..] == m.slots;
    PickedKeeps(fs, m, picked);
    FieldsPicked(fs, m, picked, 0, 0);
    BeforeFields(gs, sub);
    AfterFields(gs, sub);
  }
}
