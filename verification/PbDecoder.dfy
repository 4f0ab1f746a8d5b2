/** The decoder itself: a loop over tagged fields on an input stream, with nested length-limited substreams, the
    circular iterator and the bitmask of required fields. Each method computes what the specification says. */
module PbDecoder {
  import opened Bits
  import opened Bytes
  import opened PbTypes
  import opened PbDecode
  import opened PbStreams
  import opened PbIter
  import Varint

  // ----- The mask of required fields: two words of 32 bits -----

  const ALL_BITS: int := 0xFFFF_FFFF

  /** The mask has the bit of a required field's index exactly when the field was seen. */
  ghost predicate MaskShows(words: seq<nat>, fs: seq<Field>, seen: set<nat>) {
    && |words| == 2
    && words[0] < TWO_32 && words[1] < TWO_32
    && forall k: nat | k < MAX_REQUIRED_FIELDS ::
         Bit(words[k / 32], k % 32) <==>
         exists i | 0 <= i < |fs| :: fs[i].htype.Required? && RequiredBefore(fs, i) == k && i in seen
  }

  lemma EmptyMask(fs: seq<Field>)
    ensures MaskShows([0, 0], fs, {})
  {
    forall k: nat ensures !Bit(0, k) {
      ZeroBits(k);
    }
  }

  lemma {:induction false} RequiredIndexUnique(fs: seq<Field>, i: nat, j: nat)
    requires i < |fs| && j < |fs| && fs[i].htype.Required? && fs[j].htype.Required?
    requires RequiredBefore(fs, i) == RequiredBefore(fs, j)
    ensures i == j
  {
    if i < j {
      RequiredBeforeMonotone(fs, i, j);
    } else if j < i {
      RequiredBeforeMonotone(fs, j, i);
    }
  }

  /** Setting the bit of a required field's index records that the field was seen. */
  lemma MaskSet(words: seq<nat>, fs: seq<Field>, seen: set<nat>, i: nat)
    requires MaskShows(words, fs, seen)
    requires i < |fs| && fs[i].htype.Required? && RequiredBefore(fs, i) < MAX_REQUIRED_FIELDS
    ensures var r := RequiredBefore(fs, i);
            MaskShows(words[r / 32 := Or(words[r / 32], ShiftLeft(1, r % 32))], fs, seen + {i})
  {
    var r := RequiredBefore(fs, i);
    var w := Or(words[r / 32], ShiftLeft(1, r % 32));
    var words' := words[r / 32 := w];
    Powers();
    SingleBitBound(r % 32);
    OrBound(words[r / 32], ShiftLeft(1, r % 32), 32);
    forall k: nat | k < MAX_REQUIRED_FIELDS
      ensures Bit(words'[k / 32], k % 32) <==>
              exists j | 0 <= j < |fs| :: fs[j].htype.Required? && RequiredBefore(fs, j) == k && j in seen + {i}
    {
      if k / 32 == r / 32 {
        OrBits(words[r / 32], ShiftLeft(1, r % 32), k % 32);
        SingleBit(r % 32, k % 32);
      }
      if exists j | 0 <= j < |fs| :: fs[j].htype.Required? && RequiredBefore(fs, j) == k && j in seen + {i} {
        var j :| 0 <= j < |fs| && fs[j].htype.Required? && RequiredBefore(fs, j) == k && j in seen + {i};
        if j != i {
          assert j in seen;
        }
      }
    }
  }

  /** A field beyond the mask is not recorded, and makes no difference to it. */
  lemma MaskIgnores(words: seq<nat>, fs: seq<Field>, seen: set<nat>, i: nat)
    requires MaskShows(words, fs, seen)
    requires i < |fs| && (fs[i].htype.Required? ==> RequiredBefore(fs, i) >= MAX_REQUIRED_FIELDS)
    ensures MaskShows(words, fs, seen + {i})
  {
  }

  lemma {:induction false} SingleBitBound(k: nat)
    requires k < 32
    ensures ShiftLeft(1, k) < ShiftLeft(1, 32)
    decreases 32 - k
  {
    ShiftLeftPositive(k);
    if k < 31 {
      SingleBitBound(k + 1);
    }
  }

  lemma {:induction false} OnesIsAllBits()
    ensures Ones(32) == ALL_BITS
  {
    Powers();
    OnesBelow(32);
  }

  lemma {:induction false} OnesBelow(n: nat)
    ensures Ones(n) + 1 == ShiftLeft(1, n)
  {
    if n != 0 {
      OnesBelow(n - 1);
    }
  }

  /** A word whose low n bits are set, and no others, is the mask of n ones. */
  lemma WordFull(w: nat, n: nat)
    requires w < TWO_32 && n <= 32
    requires forall k: nat | k < 32 :: Bit(w, k) <==> k < n
    ensures w == Ones(n)
  {
    Powers();
    OnesBelow(n);
    OnesBelow(32);
    OnesMonotone(n, 32);
    forall k: nat | k < 32 ensures Bit(w, k) <==> Bit(Ones(n), k) {
      OnesBits(n, k);
    }
    SameBits(w, Ones(n), 32);
  }

  lemma {:induction false} OnesMonotone(n: nat, m: nat)
    requires n <= m
    ensures Ones(n) <= Ones(m)
    decreases m
  {
    if n != 0 {
      OnesMonotone(n - 1, m - 1);
    }
  }

  /** The words are compared with those of `count` ones: the low words whole, the last one in its low bits. */
  predicate MaskComplete(words: seq<nat>, count: nat)
    requires |words| == 2 && count <= MAX_REQUIRED_FIELDS
  {
    && (forall i | 0 <= i < count / 32 :: words[i] == ALL_BITS)
    && (count % 32 != 0 ==> words[count / 32] == Ones(count % 32))
  }

  /** The mask is complete if and only if each of the first sixty-four required fields was seen. */
  lemma MaskDecides(words: seq<nat>, fs: seq<Field>, seen: set<nat>, count: nat)
    requires MaskShows(words, fs, seen)
    requires var n := RequiredBefore(fs, |fs|); count == if n > MAX_REQUIRED_FIELDS then MAX_REQUIRED_FIELDS else n
    ensures MaskComplete(words, count) <==> RequiredSeen(fs, seen)
  {
    forall k: nat | count <= k < MAX_REQUIRED_FIELDS ensures !Bit(words[k / 32], k % 32) {
      NoSuchIndex(fs, k);
    }
    if RequiredSeen(fs, seen) {
      forall k: nat | k < count ensures Bit(words[k / 32], k % 32) {
        var i := RequiredWithIndex(fs, k, |fs|);
      }
      AllSetComplete(words, count);
    }
    if MaskComplete(words, count) {
      forall i | 0 <= i < |fs| && fs[i].htype.Required? && RequiredBefore(fs, i) < MAX_REQUIRED_FIELDS
        ensures i in seen
      {
        RequiredBeforeMonotone(fs, i, |fs|);
        var k := RequiredBefore(fs, i);
        CompleteSet(words, count, k);
        var j :| 0 <= j < |fs| && fs[j].htype.Required? && RequiredBefore(fs, j) == k && j in seen;
        RequiredIndexUnique(fs, i, j);
      }
    }
  }

  lemma NoSuchIndex(fs: seq<Field>, k: nat)
    requires k >= RequiredBefore(fs, |fs|)
    ensures forall i | 0 <= i < |fs| && fs[i].htype.Required? :: RequiredBefore(fs, i) != k
  {
    forall i | 0 <= i < |fs| && fs[i].htype.Required? ensures RequiredBefore(fs, i) < k {
      RequiredBeforeMonotone(fs, i, |fs|);
    }
  }

  lemma CompleteSet(words: seq<nat>, count: nat, k: nat)
    requires |words| == 2 && k < count <= MAX_REQUIRED_FIELDS && MaskComplete(words, count)
    ensures Bit(words[k / 32], k % 32)
  {
    OnesIsAllBits();
    OnesBits(32, k % 32);
    OnesBits(count % 32, k % 32);
  }

  lemma AllSetComplete(words: seq<nat>, count: nat)
    requires |words| == 2 && words[0] < TWO_32 && words[1] < TWO_32 && count <= MAX_REQUIRED_FIELDS
    requires forall k: nat | k < count :: Bit(words[k / 32], k % 32)
    requires forall k: nat | count <= k < MAX_REQUIRED_FIELDS :: !Bit(words[k / 32], k % 32)
    ensures MaskComplete(words, count)
  {
    OnesIsAllBits();
    forall i | 0 <= i < 2
      ensures words[i] == Ones(if count <= 32 * i then 0 else if count < 32 * i + 32 then count - 32 * i else 32)
    {
      forall k: nat | k < 32 ensures Bit(words[i], k) <==> 32 * i + k < count {
        assert (32 * i + k) / 32 == i && (32 * i + k) % 32 == k;
      }
      WordFull(words[i], if count <= 32 * i then 0 else if count < 32 * i + 32 then count - 32 * i else 32);
    }
  }

  // ----- Values -----

  lemma TakeAfter(bs: seq<byte>, n: nat, size: nat)
    requires n + size <= |bs|
    ensures bs[n..][..size] == bs[n..n + size]
  {
  }

  /** pb_dec_bytes, pb_dec_string and pb_dec_fixed_length_bytes. */
  method DecodeBufferOn(s: IStream, f: Field) returns (ok: bool, v: Value)
    requires s.Valid()
    modifies s
    ensures s.Parsed(ok, v, DecodeBuffer(f, old(s.Rest())))
  {
    ghost var bs := s.Rest();
    v := Buf([]);
    var size, b;
    ok, size := s.DecodeVarint32();
    if !ok {
      return;
    }
    if size > SIZE_MAX {
      return false, v;
    }
    if f.ltype.FixedBytes? && size == 0 {
      return true, Buf(Zeros(f.dataSize));
    }
    if f.ltype.ByteArray? && size + BYTES_HEADER > f.dataSize {
      return false, v;
    }
    if f.ltype.Text? && size + 1 > f.dataSize {
      return false, v;
    }
    if f.ltype.FixedBytes? && size != f.dataSize {
      return false, v;
    }
    ghost var n := Varint.Decode32(bs).n;
    assert s.Rest() == bs[n..];
    ok, b := s.Read(size);
    v := Buf(b);
    if ok {
      TakeAfter(bs, n, size);
    }
  }

  /** The field decoders that are not pb_dec_submessage. */
  method DecodeScalarOn(s: IStream, f: Field) returns (ok: bool, v: Value)
    requires s.Valid()
    modifies s
    ensures s.Parsed(ok, v, DecodeScalar(f, old(s.Rest())))
  {
    v := Num(0);
    if f.ltype.Varint? || f.ltype.Uvarint? || f.ltype.Svarint? {
      var u;
      ok, u := s.DecodeVarint();
      if ok {
        var n := StoredInteger(f, u);
        if n.None? {
          return false, v;
        }
        v := Num(n.value);
      }
    } else if f.ltype.Fixed32? {
      var b;
      ok, b := s.Read(4);
      v := Num(FromLittleEndian(b));
    } else if f.ltype.Fixed64? {
      var b;
      ok, b := s.Read(8);
      v := Num(FromLittleEndian(b));
    } else {
      ok, v := DecodeBufferOn(s, f);
    }
  }

  /** pb_dec_submessage: the parent resumes exactly after the prefix and the bytes it announces. */
  method DecodeValueOn(s: IStream, f: Field, stored: Value) returns (ok: bool, v: Value)
    requires s.Valid() && WellFormedField(f)
    modifies s
    ensures s.Parsed(ok, v, DecodeValue(f, stored, old(s.Rest())))
    decreases s.bytesLeft, 1
  {
    if !f.ltype.Submessage? {
      ok, v := DecodeScalarOn(s, f);
      return;
    }
    v := Num(0);
    var sub, m;
    ok, sub := s.MakeSubstream();
    if !ok {
      return;
    }
    label L:
    ok, m := DecodeMessage(sub, f.ltype.fields, Initial(f, stored));
    if !ok {
      return;
    }
    v := Sub(m);
    ok := s.CloseSubstream(sub);
  }

  /** The packed-array loop of decode_static_field. */
  method DecodePackedOn(s: IStream, f: Field, items: seq<Value>, k: nat)
    returns (ok: bool, items': seq<Value>, k': nat)
    requires s.Valid()
    modifies s
    ensures s.Parsed(ok, (items', k'), match Delimited(old(s.Rest()))
                                       case Fail => Fail
                                       case Got(body, n) =>
                                         match DecodePacked(f, items, k, body)
                                         case None => Fail
                                         case Some(r) => Got(r, n))
  {
    hide DecodeScalar, Delimited;
    items', k' := items, k;
    var sub;
    ok, sub := s.MakeSubstream();
    if !ok {
      return;
    }
    label L:
    ghost var body := sub.Rest();
    var status := true;
    while sub.bytesLeft > 0 && k' < f.arraySize
      invariant sub.Valid() && sub.pos + sub.bytesLeft == old@L(sub.pos + sub.bytesLeft) && status
      invariant DecodePacked(f, items, k, body) == DecodePacked(f, items', k', sub.Rest())
      invariant s.pos == old@L(s.pos) && s.bytesLeft == old@L(s.bytesLeft)
      decreases sub.bytesLeft
    {
      var v;
      ghost var rest := sub.Rest();
      status, v := DecodeScalarOn(sub, f);
      if !status {
        break;
      }
      assert sub.Rest() == rest[DecodeScalar(f, rest).n..];
      items' := Put(items', k', v);
      k' := k' + 1;
    }
    if sub.bytesLeft != 0 {
      return false, items', k';
    }
    ok := s.CloseSubstream(sub);
    ok := status;
  }

  /** The REPEATED case of decode_static_field. */
  method DecodeArrayOn(s: IStream, f: Field, items: seq<Value>, k: nat, wireType: nat)
    returns (ok: bool, items': seq<Value>, k': nat)
    requires s.Valid() && WellFormedField(f)
    modifies s
    ensures s.Parsed(ok, (items', k'), DecodeArray(f, items, k, wireType, old(s.Rest())))
    decreases s.bytesLeft, 2
  {
    if wireType == WT_STRING && Packable(f.ltype) {
      ok, items', k' := DecodePackedOn(s, f, items, k);
      return;
    }
    items', k' := items, k;
    if k >= f.arraySize {
      return false, items, k;
    }
    var v;
    ok, v := DecodeValueOn(s, f, Num(0));
    if ok {
      items', k' := Put(items, k, v), k + 1;
    }
  }

  /** decode_static_field; `fixed` is the array of fixed count being received and its count. */
  method DecodeFieldOn(s: IStream, fs: seq<Field>, i: nat, wireType: nat, m: Message, ghost seen: set<nat>,
                       fixedField: Option<nat>, fixedCount: nat)
    returns (ok: bool, m': Message, fixedField': Option<nat>, fixedCount': nat)
    requires s.Valid() && i < |fs| && WellFormedField(fs[i])
    modifies s
    ensures var t := DecodeField(fs, i, wireType, State(m, seen, fixedField, fixedCount), old(s.Rest()));
            && s.Valid()
            && (ok <==> t.Next?)
            && (ok ==> t.st == State(m', if fs[i].htype.Required? then seen + {i} else seen, fixedField', fixedCount'))
            && (ok ==> s.pos == old(s.pos) + t.n && s.bytesLeft + t.n == old(s.bytesLeft))
            && s.pos + s.bytesLeft <= old(s.pos + s.bytesLeft)
    decreases s.bytesLeft, 3
  {
    var f := fs[i];
    var slot := if i < |m.slots| then m.slots[i] else Many([]);
    m', fixedField', fixedCount' := m, fixedField, fixedCount;
    if f.htype.Repeated? || f.htype.FixedCount? {
      var k := |Items(slot)|;
      if f.htype.FixedCount? {
        if fixedField != Some(i) {
          if fixedField.Some? && fixedField.value < |fs| && fixedCount != fs[fixedField.value].arraySize {
            return false, m', fixedField', fixedCount';
          }
          fixedField', fixedCount' := Some(i), 0;
        }
        k := fixedCount';
      }
      var items;
      ok, items, k := DecodeArrayOn(s, f, Items(slot), k, wireType);
      if ok {
        m' := if i < |m.slots| then m.(slots := m.slots[i := Many(items)]) else m;
        fixedCount' := if f.htype.FixedCount? then k else fixedCount';
      }
      return;
    }
    var v;
    ok, v := DecodeValueOn(s, f, SlotOld(f, slot));
    if ok {
      m' := if i < |m.slots| then m.(slots := m.slots[i := if f.htype.Optional? then Opt(true, v) else One(v)]) else m;
      if f.htype.Oneof? {
        m' := m'.(which := m'.which[f.htype.union := f.tag]);
      }
    }
  }

  // ----- The loop -----

  /** The bit of a required field is set when the iterator stands on one of the first sixty-four. */
  method MarkSeen(iter: FieldIter, words: seq<nat>, ghost seen: set<nat>)
    returns (words': seq<nat>, ghost seen': set<nat>)
    requires iter.Valid() && iter.pos < |iter.fields| && MaskShows(words, iter.fields, seen)
    ensures MaskShows(words', iter.fields, seen')
    ensures seen' == if iter.fields[iter.pos].htype.Required? then seen + {iter.pos} else seen
  {
    words', seen' := words, seen;
    if iter.fields[iter.pos].htype.Required? {
      seen' := seen + {iter.pos};
      var r := iter.requiredFieldIndex;
      if r < MAX_REQUIRED_FIELDS {
        MaskSet(words, iter.fields, seen, iter.pos);
        words' := words[r / 32 := Or(words[r / 32], ShiftLeft(1, r % 32))];
      } else {
        MaskIgnores(words, iter.fields, seen, iter.pos);
      }
    }
  }

  /** One turn of the decoding loop: a tag and the field that follows it, or the zero tag that ends the message. */
  method TurnOn(s: IStream, iter: FieldIter, m: Message, words: seq<nat>, ghost seen: set<nat>,
                fixedField: Option<nat>, fixedCount: nat)
    returns (ok: bool, stop: bool, m': Message, words': seq<nat>, ghost seen': set<nat>, fixedField': Option<nat>,
             fixedCount': nat)
    requires s.Valid() && s.bytesLeft > 0 && iter.Valid() && WellFormed(iter.fields)
    requires MaskShows(words, iter.fields, seen)
    modifies s, iter
    ensures iter.Valid() && s.Valid() && s.pos + s.bytesLeft <= old(s.pos + s.bytesLeft)
    ensures MaskShows(words', iter.fields, seen')
    ensures var t := Step(iter.fields, State(m, seen, fixedField, fixedCount), old(s.Rest()));
            && (ok <==> !t.Error?)
            && (ok ==> (stop <==> t.Stop?) && s.pos + s.bytesLeft == old(s.pos + s.bytesLeft))
            && (ok && stop ==> m' == m && seen' == seen && fixedField' == fixedField && fixedCount' == fixedCount)
            && (ok && !stop ==> t.st == State(m', seen', fixedField', fixedCount') && s.pos == old(s.pos) + t.n)
    decreases s.bytesLeft, 4
  {
    m', words', seen', fixedField', fixedCount' := m, words, seen, fixedField, fixedCount;
    stop := false;
    ghost var before := s.Rest();
    var key;
    ok, key := s.DecodeVarint32();
    if !ok {
      return;
    }
    if key == 0 {
      stop := true;
      return;
    }
    assert s.Rest() == before[Varint.Decode32(before).n..];
    var tag, wireType := key / 8, key % 8;
    var found := iter.Find(tag);
    if !found {
      ok := s.SkipField(wireType);
      return;
    }
    if iter.pos == |iter.fields| {
      ok := false;  // the terminator entry, an integer of width 0
      return;
    }
    FindIsUnique(iter.fields, iter.pos, tag);
    words', seen' := MarkSeen(iter, words, seen);
    ok, m', fixedField', fixedCount' := DecodeFieldOn(s, iter.fields, iter.pos, wireType, m, seen, fixedField, fixedCount);
  }

  /** pb_decode_noinit. */
  method DecodeMessage(s: IStream, fs: seq<Field>, dest: Message) returns (ok: bool, m: Message)
    requires s.Valid() && WellFormed(fs)
    modifies s
    ensures s.Valid() && s.pos + s.bytesLeft <= old(s.pos + s.bytesLeft)
    ensures ok <==> PbDecode.Decode(fs, dest, old(s.Rest())).Some?
    ensures ok ==> m == PbDecode.Decode(fs, dest, old(s.Rest())).value
    ensures ok ==> s.pos + s.bytesLeft == old(s.pos + s.bytesLeft)
    ensures ok && !Run(fs, Start(dest), old(s.Rest())).terminated ==> s.bytesLeft == 0
    decreases s.bytesLeft, 5
  {
    hide Step;
    ghost var bs := s.Rest();
    ghost var seen: set<nat> := {};
    var words: seq<nat> := [0, 0];
    var fixedField: Option<nat>, fixedCount: nat := None, 0;
    var iter := new FieldIter.ForTree(fs);
    m := dest;
    EmptyMask(fs);
    while s.bytesLeft > 0
      invariant s.Valid() && s.pos + s.bytesLeft == old(s.pos + s.bytesLeft) && s.bytesLeft <= old(s.bytesLeft)
      invariant iter.Valid() && iter.fields == fs && fresh(iter)
      invariant MaskShows(words, fs, seen)
      invariant Run(fs, Start(dest), bs) == Run(fs, State(m, seen, fixedField, fixedCount), s.Rest())
      decreases s.bytesLeft
    {
      ghost var before := s.Rest();
      ghost var t := Step(fs, State(m, seen, fixedField, fixedCount), before);
      var stop;
      ok, stop, m, words, seen, fixedField, fixedCount := TurnOn(s, iter, m, words, seen, fixedField, fixedCount);
      if !ok {
        return;
      }
      if stop {
        break;
      }
      assert s.Rest() == before[t.n..];
    }
    if fixedField.Some? && fixedField.value < |fs| && fixedCount != fs[fixedField.value].arraySize {
      return false, m;
    }
    var count := RequiredCount(iter);
    count := if count > MAX_REQUIRED_FIELDS then MAX_REQUIRED_FIELDS else count;
    MaskDecides(words, fs, seen, count);
    ok := MaskComplete(words, count);
  }

  /** Seeking to the end of the descriptor to count its required fields. */
  method RequiredCount(iter: FieldIter) returns (count: nat)
    requires iter.Valid()
    modifies iter
    ensures iter.Valid() && count == RequiredBefore(iter.fields, |iter.fields|)
  {
    if iter.fields == [] {
      return 0;
    }
    var lastRequired;
    while true
      invariant iter.Valid()
      decreases |iter.fields| - iter.pos
    {
      count := iter.requiredFieldIndex;
      lastRequired := iter.fields[iter.pos].htype.Required?;
      var more := iter.Next();
      if !more {
        break;
      }
    }
    count := count + if lastRequired then 1 else 0;
  }

  lemma FindIsUnique(fs: seq<Field>, i: nat, tag: nat)
    requires DistinctTags(fs) && i < |fs| && fs[i].tag == tag
    ensures Find(fs, tag) == i
  {
  }

  /** pb_decode: the struct is first set to its defaults. */
  method DecodeFresh(s: IStream, fs: seq<Field>) returns (ok: bool, m: Message)
    requires s.Valid() && WellFormed(fs)
    modifies s
    ensures s.Valid() && s.pos + s.bytesLeft <= old(s.pos + s.bytesLeft)
    ensures ok <==> PbDecode.Decode(fs, Defaults(fs), old(s.Rest())).Some?
    ensures ok ==> m == PbDecode.Decode(fs, Defaults(fs), old(s.Rest())).value
    ensures ok ==> s.pos + s.bytesLeft == old(s.pos + s.bytesLeft)
    ensures ok && !Run(fs, Start(Defaults(fs)), old(s.Rest())).terminated ==> s.bytesLeft == 0
  {
    ok, m := DecodeMessage(s, fs, Defaults(fs));
  }
}
