/** The encoder itself: every submessage is walked twice, once on a sizing stream and once on the real one. Each method
    writes exactly what the specification says, and fails exactly when that does not exist or does not fit. */
module PbEncoder {
  import opened Bytes
  import opened PbTypes
  import opened PbEncode
  import opened PbStreams
  import Varint

  /** What stood before the last piece, and the piece, stand one after the other. */
  lemma Joined(buf: seq<byte>, start: nat, before: seq<byte>, end: nat)
    requires start <= |before| <= end <= |buf| && buf[..|before|] == before
    ensures buf[..start] == before[..start]
    ensures buf[start..end] == before[start..] + buf[|before|..end]
  {
  }

  /** pb_encode_tag. */
  method EncodeTag(s: OStream, wireType: nat, tag: nat) returns (ok: bool)
    requires s.Valid() && tag < 0x2000_0000 && wireType < 8
    modifies s, s.buf
    ensures s.Wrote(ok, Some(Tag(tag, wireType)))
  {
    ok := s.EncodeVarint(8 * tag + wireType);
  }

  /** pb_encode_string. */
  method EncodeString(s: OStream, b: seq<byte>) returns (ok: bool)
    requires s.Valid()
    modifies s, s.buf
    ensures s.Wrote(ok, Some(LengthPrefixed(b)))
  {
    var size: nat := |b| % TWO_64;
    ok := s.EncodeVarint(size);
    if !ok {
      return;
    }
    label L:
    ok := s.Write(b);
    if !s.sizing {
      Joined(s.buf[..], old(s.state), old@L(s.buf[..s.state]), s.state);
    }
  }

  /** The strnlen loop of pb_enc_string. */
  method TextLength(b: seq<byte>, maxSize: nat) returns (size: nat)
    requires |b| <= maxSize
    ensures size == |TextContent(b)|
  {
    size := 0;
    while size < maxSize && size < |b| && b[size] != 0
      invariant size <= |b| && TextContent(b) == b[..size] + TextContent(b[size..])
    {
      assert b[size..][1..] == b[size + 1..];
      assert b[..size] + [b[size]] == b[..size + 1];
      size := size + 1;
    }
    assert TextContent(b[size..]) == [];
  }

  /** The field encoders that are not pb_enc_submessage. */
  method EncodeScalar(s: OStream, f: Field, v: Value) returns (ok: bool)
    requires s.Valid() && WellFormedField(f) && HasType(f, v) && !f.ltype.Submessage?
    modifies s, s.buf
    ensures s.Wrote(ok, EncodeValue(f, v))
  {
    if f.ltype.Varint? || f.ltype.Uvarint? || f.ltype.Svarint? {
      if f.ltype.Svarint? {
        Varint.ZigZagBijection(v.n, 0, 8);
      }
      ok := s.EncodeVarint(WireInteger(f, v.n));
    } else if f.ltype.Fixed32? {
      ok := s.Write(LittleEndian(v.n, 4));
    } else if f.ltype.Fixed64? {
      ok := s.Write(LittleEndian(v.n, 8));
    } else if f.ltype.ByteArray? {
      if |v.b| + BYTES_HEADER > f.dataSize {
        return false;
      }
      ok := EncodeString(s, v.b);
    } else if f.ltype.Text? {
      var size := TextLength(v.b, f.dataSize);
      ok := EncodeString(s, v.b[..size]);
    } else {
      ok := EncodeString(s, v.b);
    }
  }

  /** pb_encode_submessage. The check for a changed size can never fire. */
  method EncodeSubmessage(s: OStream, fs: seq<Field>, m: Message) returns (ok: bool)
    requires s.Valid() && WellFormed(fs) && Typed(fs, m)
    modifies s, s.buf
    ensures s.Wrote(ok, match EncodeMessage(fs, m) case None => None case Some(e) => Some(LengthPrefixed(e)))
    decreases fs, 6
  {
    var sub := new OStream.Sizing();
    ok := Encode(sub, fs, m);
    if !ok {
      return;
    }
    var size := sub.bytesWritten;
    ghost var e := EncodeMessage(fs, m).value;
    ok := s.EncodeVarint(size % TWO_64);
    if !ok {
      return;
    }
    if s.sizing {
      s.Count(size);
      return;
    }
    if s.bytesWritten + size > s.maxSize {
      return false;
    }
    label L:
    sub := new OStream.Sub(s, size);
    label M:
    ok := Encode(sub, fs, m);
    s.bytesWritten := s.bytesWritten + sub.bytesWritten;
    s.state := sub.state;
    if sub.bytesWritten != size {
      assert false;
      return false;
    }
    if !s.sizing {
      Joined(s.buf[..], old(s.state), old@L(s.buf[..s.state]), s.state);
    }
  }

  method EncodeValueOn(s: OStream, f: Field, v: Value) returns (ok: bool)
    requires s.Valid() && WellFormedField(f) && HasType(f, v)
    modifies s, s.buf
    ensures s.Wrote(ok, EncodeValue(f, v))
    decreases f, 0
  {
    if f.ltype.Submessage? {
      ok := EncodeSubmessage(s, f.ltype.fields, v.m);
    } else {
      ok := EncodeScalar(s, f, v);
    }
  }

  /** pb_encode_tag_for_field and the field encoder. */
  method EncodeTaggedOn(s: OStream, f: Field, v: Value) returns (ok: bool)
    requires s.Valid() && WellFormedField(f) && HasType(f, v)
    modifies s, s.buf
    ensures s.Wrote(ok, EncodeTagged(f, v))
    decreases f, 1
  {
    ok := EncodeTag(s, WireType(f.ltype), f.tag);
    if !ok {
      return;
    }
    label L:
    ok := EncodeValueOn(s, f, v);
    if !s.sizing {
      Joined(s.buf[..], old(s.state), old@L(s.buf[..s.state]), s.state);
    }
  }

  lemma {:induction false} PackedSplit(f: Field, items: seq<Value>, i: nat)
    requires i <= |items|
    ensures EncodePacked(f, items) == Append(EncodePacked(f, items[..i]), EncodePacked(f, items[i..]))
  {
    if i == 0 {
      assert items[0..] == items;
      AppendUnit(EncodePacked(f, items));
    } else {
      var t := items[1..];
      assert items[..i][1..] == t[..i - 1] && items[i..] == t[i - 1..];
      PackedSplit(f, t, i - 1);
      AppendAssociative(EncodeValue(f, items[0]), EncodePacked(f, t[..i - 1]), EncodePacked(f, t[i - 1..]));
    }
  }

  lemma {:induction false} UnpackedSplit(f: Field, items: seq<Value>, i: nat)
    requires i <= |items|
    ensures EncodeUnpacked(f, items) == Append(EncodeUnpacked(f, items[..i]), EncodeUnpacked(f, items[i..]))
  {
    if i == 0 {
      assert items[0..] == items;
      AppendUnit(EncodeUnpacked(f, items));
    } else {
      var t := items[1..];
      assert items[..i][1..] == t[..i - 1] && items[i..] == t[i - 1..];
      UnpackedSplit(f, t, i - 1);
      AppendAssociative(EncodeTagged(f, items[0]), EncodeUnpacked(f, t[..i - 1]), EncodeUnpacked(f, t[i - 1..]));
    }
  }

  lemma {:induction false} FieldsSplit(fs: seq<Field>, slots: seq<Slot>, which: map<nat, nat>, i: nat)
    requires i <= |fs| == |slots|
    ensures EncodeFields(fs, slots, which)
            == Append(EncodeFields(fs[..i], slots[..i], which), EncodeFields(fs[i..], slots[i..], which))
  {
    if i == 0 {
      assert fs[0..] == fs && slots[0..] == slots;
      AppendUnit(EncodeFields(fs, slots, which));
    } else {
      var ft, st := fs[1..], slots[1..];
      assert fs[..i][1..] == ft[..i - 1] && fs[i..] == ft[i - 1..];
      assert slots[..i][1..] == st[..i - 1] && slots[i..] == st[i - 1..];
      FieldsSplit(ft, st, which, i - 1);
      AppendAssociative(EncodeField(fs[0], slots[0], which), EncodeFields(ft[..i - 1], st[..i - 1], which),
                        EncodeFields(ft[i - 1..], st[i - 1..], which));
    }
  }

  lemma AppendAssociative(a: Option<seq<byte>>, b: Option<seq<byte>>, c: Option<seq<byte>>)
    ensures Append(a, Append(b, c)) == Append(Append(a, b), c)
  {
    if a.Some? && b.Some? && c.Some? {
      assert a.value + (b.value + c.value) == (a.value + b.value) + c.value;
    }
  }

  lemma AppendUnit(a: Option<seq<byte>>)
    ensures Append(Some([]), a) == a == Append(a, Some([]))
  {
    if a.Some? {
      assert [] + a.value == a.value == a.value + [];
    }
  }

  /** The loop over the entries of a packed array. */
  method EncodeEntries(s: OStream, f: Field, items: seq<Value>) returns (ok: bool)
    requires s.Valid() && WellFormedField(f) && Packable(f.ltype)
    requires forall i | 0 <= i < |items| :: HasType(f, items[i])
    modifies s, s.buf
    ensures s.Wrote(ok, EncodePacked(f, items))
  {
    for i := 0 to |items|
      invariant s.Wrote(true, EncodePacked(f, items[..i]))
    {
      label L:
      ok := EncodeScalar(s, f, items[i]);
      if !s.sizing {
        Joined(s.buf[..], old(s.state), old@L(s.buf[..s.state]), s.state);
      }
      PackedSplit(f, items[..i + 1], i);
      assert items[..i + 1][..i] == items[..i] && items[..i + 1][i..] == [items[i]];
      AppendUnit(EncodeValue(f, items[i]));
      assert EncodePacked(f, [items[i]]) == EncodeValue(f, items[i]);
      if !ok {
        PackedSplit(f, items, i + 1);
        return;
      }
    }
    assert items[..|items|] == items;
    return true;
  }

  /** The loop over the entries of an array that is not packed. */
  method EncodeTaggedEntries(s: OStream, f: Field, items: seq<Value>) returns (ok: bool)
    requires s.Valid() && WellFormedField(f)
    requires forall i | 0 <= i < |items| :: HasType(f, items[i])
    modifies s, s.buf
    ensures s.Wrote(ok, EncodeUnpacked(f, items))
    decreases f, 2
  {
    for i := 0 to |items|
      invariant s.Wrote(true, EncodeUnpacked(f, items[..i]))
    {
      label L:
      ok := EncodeTaggedOn(s, f, items[i]);
      if !s.sizing {
        Joined(s.buf[..], old(s.state), old@L(s.buf[..s.state]), s.state);
      }
      UnpackedSplit(f, items[..i + 1], i);
      assert items[..i + 1][..i] == items[..i] && items[..i + 1][i..] == [items[i]];
      AppendUnit(EncodeTagged(f, items[i]));
      assert EncodeUnpacked(f, [items[i]]) == EncodeTagged(f, items[i]);
      if !ok {
        UnpackedSplit(f, items, i + 1);
        return;
      }
    }
    assert items[..|items|] == items;
    return true;
  }

  /** The size of a packed array, computed for the fixed-width types and measured for the others. */
  method PackedSize(f: Field, items: seq<Value>) returns (ok: bool, size: nat)
    requires WellFormedField(f) && Packable(f.ltype)
    requires forall i | 0 <= i < |items| :: HasType(f, items[i])
    ensures ok <==> EncodePacked(f, items).Some?
    ensures ok ==> size == |EncodePacked(f, items).value|
  {
    if f.ltype.Fixed32? {
      FixedPackedSize(f, items, 4);
      return true, 4 * |items|;
    } else if f.ltype.Fixed64? {
      FixedPackedSize(f, items, 8);
      return true, 8 * |items|;
    }
    var sizes := new OStream.Sizing();
    ok := EncodeEntries(sizes, f, items);
    size := sizes.bytesWritten;
  }

  lemma {:induction false} FixedPackedSize(f: Field, items: seq<Value>, width: nat)
    requires (f.ltype.Fixed32? && width == 4) || (f.ltype.Fixed64? && width == 8)
    requires forall i | 0 <= i < |items| :: HasType(f, items[i])
    ensures EncodePacked(f, items).Some? && |EncodePacked(f, items).value| == width * |items|
  {
    if items != [] {
      FixedPackedSize(f, items[1..], width);
    }
  }

  /** encode_array. */
  method EncodeArrayOn(s: OStream, f: Field, items: seq<Value>) returns (ok: bool)
    requires s.Valid() && WellFormedField(f)
    requires forall i | 0 <= i < |items| :: HasType(f, items[i])
    modifies s, s.buf
    ensures s.Wrote(ok, EncodeArray(f, items))
    decreases f, 3
  {
    hide EncodePacked, EncodeUnpacked, EncodeValue, Tag, Varint.Encode, HasType;
    if items == [] {
      return true;
    }
    if |items| > f.arraySize {
      return false;
    }
    if !Packable(f.ltype) {
      ok := EncodeTaggedEntries(s, f, items);
      return;
    }
    ok := EncodeTag(s, WT_STRING, f.tag);
    if !ok {
      return;
    }
    label L:
    var sized, size := PackedSize(f, items);
    if !sized {
      return false;
    }
    ghost var body := EncodePacked(f, items).value;
    ok := s.EncodeVarint(size % TWO_64);
    if !s.sizing {
      Joined(s.buf[..], old(s.state), old@L(s.buf[..s.state]), s.state);
    }
    ghost var head := Append(Some(Tag(f.tag, WT_STRING)), Some(Varint.Encode(size % TWO_64)));
    assert head.value + body == Tag(f.tag, WT_STRING) + LengthPrefixed(body);
    if !ok {
      return;
    }
    label M:
    if s.sizing {
      s.Count(size);
      return;
    }
    ok := EncodeEntries(s, f, items);
    if !s.sizing {
      Joined(s.buf[..], old(s.state), old@M(s.buf[..s.state]), s.state);
    }
  }

  /** encode_basic_field. */
  method EncodeFieldOn(s: OStream, f: Field, slot: Slot, which: map<nat, nat>) returns (ok: bool)
    requires s.Valid() && WellFormedField(f) && SlotHasType(f, slot)
    modifies s, s.buf
    ensures s.Wrote(ok, EncodeField(f, slot, which))
    decreases f, 4
  {
    if f.htype.Repeated? || f.htype.FixedCount? {
      ok := EncodeArrayOn(s, f, slot.items);
    } else if Present(f, slot, which) {
      ok := EncodeTaggedOn(s, f, SlotValue(slot));
    } else {
      return true;
    }
  }

  /** pb_encode. */
  method Encode(s: OStream, fs: seq<Field>, m: Message) returns (ok: bool)
    requires s.Valid() && WellFormed(fs) && Typed(fs, m)
    modifies s, s.buf
    ensures s.Wrote(ok, EncodeMessage(fs, m))
    decreases fs, 5
  {
    var slots, which := m.slots, m.which;
    for i := 0 to |fs|
      invariant s.Wrote(true, EncodeFields(fs[..i], slots[..i], which))
    {
      label L:
      ok := EncodeFieldOn(s, fs[i], slots[i], which);
      ghost var e := EncodeField(fs[i], slots[i], which);
      if !s.sizing {
        Joined(s.buf[..], old(s.state), old@L(s.buf[..s.state]), s.state);
      }
      OneMoreField(fs, slots, which, i);
      if !ok {
        FieldsSplit(fs, slots, which, i + 1);
        return;
      }
    }
    assert fs[..|fs|] == fs && slots[..|fs|] == slots;
    return true;
  }

  lemma OneMoreField(fs: seq<Field>, slots: seq<Slot>, which: map<nat, nat>, i: nat)
    requires i < |fs| == |slots|
    ensures EncodeFields(fs[..i + 1], slots[..i + 1], which)
            == Append(EncodeFields(fs[..i], slots[..i], which), EncodeField(fs[i], slots[i], which))
  {
    FieldsSplit(fs[..i + 1], slots[..i + 1], which, i);
    assert fs[..i + 1][..i] == fs[..i] && fs[..i + 1][i..] == [fs[i]];
    assert slots[..i + 1][..i] == slots[..i] && slots[..i + 1][i..] == [slots[i]];
    AppendUnit(EncodeField(fs[i], slots[i], which));
    assert [fs[i]][1..] == [] && [slots[i]][1..] == [];
  }

  /** pb_get_encoded_size: the sizing pass counts exactly the bytes the writing pass emits. */
  method EncodedSize(fs: seq<Field>, m: Message) returns (ok: bool, size: nat)
    requires WellFormed(fs) && Typed(fs, m)
    ensures ok <==> EncodeMessage(fs, m).Some?
    ensures ok ==> size == |EncodeMessage(fs, m).value|
  {
    var s := new OStream.Sizing();
    ok := Encode(s, fs, m);
    size := s.bytesWritten;
  }
}
