/** Decoding is a fold over wire fields: consumed input decides the outcome, whatever follows it. */
module PbFold {
  import opened Bytes
  import opened PbTypes
  import opened PbDecode
  import Varint

  // ----- Consumed prefixes decide the outcome -----

  lemma DecodeVarintStable(a: seq<byte>, b: seq<byte>)
    requires Varint.Decode(a).Got?
    ensures Varint.Decode(a + b) == Varint.Decode(a)
  {
    Varint.DigitsStable(a, b, Varint.MAX_VARINT_BYTES);
  }

  lemma DelimitedStable(a: seq<byte>, b: seq<byte>)
    requires Delimited(a).Got?
    ensures Delimited(a + b) == Delimited(a)
  {
    Varint.Decode32Stable(a, b);
    var p := Varint.Decode32(a);
    assert (a + b)[p.n..p.n + p.val] == a[p.n..p.n + p.val];
  }

  lemma SkipStable(wireType: nat, a: seq<byte>, b: seq<byte>)
    requires Skip(wireType, a).Got?
    ensures Skip(wireType, a + b) == Skip(wireType, a)
  {
    if wireType == WT_VARINT {
      Varint.SkipStable(a, b);
    } else if wireType == WT_STRING {
      Varint.Decode32Stable(a, b);
    }
  }

  lemma ScalarStable(f: Field, a: seq<byte>, b: seq<byte>)
    requires DecodeScalar(f, a).Got?
    ensures DecodeScalar(f, a + b) == DecodeScalar(f, a)
  {
    if f.ltype.Varint? || f.ltype.Uvarint? || f.ltype.Svarint? {
      DecodeVarintStable(a, b);
    } else if f.ltype.Fixed32? {
      assert (a + b)[..4] == a[..4];
    } else if f.ltype.Fixed64? {
      assert (a + b)[..8] == a[..8];
    } else {
      Varint.Decode32Stable(a, b);
      var p := Varint.Decode32(a);
      if |a| - p.n >= p.val {
        assert (a + b)[p.n..p.n + p.val] == a[p.n..p.n + p.val];
      }
    }
  }

  lemma ValueStable(f: Field, stored: Value, a: seq<byte>, b: seq<byte>)
    requires DecodeValue(f, stored, a).Got?
    ensures DecodeValue(f, stored, a + b) == DecodeValue(f, stored, a)
  {
    if f.ltype.Submessage? {
      DelimitedStable(a, b);
    } else {
      ScalarStable(f, a, b);
    }
  }

  lemma ArrayStable(f: Field, items: seq<Value>, k: nat, wireType: nat, a: seq<byte>, b: seq<byte>)
    requires DecodeArray(f, items, k, wireType, a).Got?
    ensures DecodeArray(f, items, k, wireType, a + b) == DecodeArray(f, items, k, wireType, a)
  {
    if wireType == WT_STRING && Packable(f.ltype) {
      DelimitedStable(a, b);
    } else {
      ValueStable(f, Num(0), a, b);
    }
  }

  lemma FieldStable(fs: seq<Field>, i: nat, wireType: nat, st: State, a: seq<byte>, b: seq<byte>)
    requires i < |fs| && DecodeField(fs, i, wireType, st, a).Next?
    ensures DecodeField(fs, i, wireType, st, a + b) == DecodeField(fs, i, wireType, st, a)
  {
    var f := fs[i];
    var s := if i < |st.msg.slots| then st.msg.slots[i] else Many([]);
    if f.htype.Repeated? {
      ArrayStable(f, Items(s), |Items(s)|, wireType, a, b);
    } else if f.htype.FixedCount? {
      ArrayStable(f, Items(s), EnterFixed(fs, i, st).value.fixedCount, wireType, a, b);
    } else {
      ValueStable(f, SlotOld(f, s), a, b);
    }
  }

  lemma StepStable(fs: seq<Field>, st: State, a: seq<byte>, b: seq<byte>)
    requires a != [] && !Step(fs, st, a).Error?
    ensures Step(fs, st, a + b) == Step(fs, st, a)
  {
    Varint.Decode32Stable(a, b);
    var key := Varint.Decode32(a);
    if key.val != 0 {
      var rest := a[key.n..];
      assert (a + b)[key.n..] == rest + b;
      var i := Find(fs, key.val / 8);
      if i == |fs| {
        SkipStable(key.val % 8, rest, b);
      } else {
        FieldStable(fs, i, key.val % 8, st, rest, b);
      }
    }
  }

  /** Running over a ++ b is running over a and then, from the state it leaves, over b. */
  lemma {:induction false} RunConcat(fs: seq<Field>, st: State, a: seq<byte>, b: seq<byte>)
    requires Run(fs, st, a).Ended? && !Run(fs, st, a).terminated
    ensures Run(fs, st, a + b) == Run(fs, Run(fs, st, a).st, b)
    decreases |a|
  {
    if a == [] {
      assert a + b == b;
    } else {
      StepStable(fs, st, a, b);
      var t := Step(fs, st, a);
      assert (a + b)[t.n..] == a[t.n..] + b;
      RunConcat(fs, t.st, a[t.n..], b);
    }
  }

  // ----- Merging two inputs -----

  predicate NoFixedCount(fs: seq<Field>) {
    forall i | 0 <= i < |fs| :: !fs[i].htype.FixedCount?
  }

  /** Required fields already seen stay seen and change nothing but the mask. */
  predicate SameButSeen(s: State, t: State) {
    s.msg == t.msg && s.fixedField == t.fixedField && s.fixedCount == t.fixedCount && s.seen <= t.seen
  }

  lemma StepSeen(fs: seq<Field>, s: State, t: State, bs: seq<byte>)
    requires SameButSeen(s, t) && bs != []
    ensures Step(fs, s, bs).Error? <==> Step(fs, t, bs).Error?
    ensures Step(fs, s, bs).Stop? <==> Step(fs, t, bs).Stop?
    ensures Step(fs, s, bs).Next? ==>
              Step(fs, s, bs).n == Step(fs, t, bs).n && SameButSeen(Step(fs, s, bs).st, Step(fs, t, bs).st)
  {
    var key := Varint.Decode32(bs);
    if key.Got? && key.val != 0 {
      var rest := bs[key.n..];
      var i := Find(fs, key.val / 8);
      if i < |fs| {
        FieldSeen(fs, i, key.val % 8, s, t, rest);
      }
    }
  }

  lemma FieldSeen(fs: seq<Field>, i: nat, wireType: nat, s: State, t: State, bs: seq<byte>)
    requires SameButSeen(s, t) && i < |fs|
    ensures !DecodeField(fs, i, wireType, s, bs).Stop? && !DecodeField(fs, i, wireType, t, bs).Stop?
    ensures DecodeField(fs, i, wireType, s, bs).Next? <==> DecodeField(fs, i, wireType, t, bs).Next?
    ensures DecodeField(fs, i, wireType, s, bs).Next? ==>
              && DecodeField(fs, i, wireType, s, bs).n == DecodeField(fs, i, wireType, t, bs).n
              && SameButSeen(DecodeField(fs, i, wireType, s, bs).st, DecodeField(fs, i, wireType, t, bs).st)
  {
  }

  lemma {:induction false} RunSeen(fs: seq<Field>, s: State, t: State, bs: seq<byte>)
    requires SameButSeen(s, t)
    ensures Run(fs, s, bs).Ended? <==> Run(fs, t, bs).Ended?
    ensures Run(fs, s, bs).Ended? ==>
              && SameButSeen(Run(fs, s, bs).st, Run(fs, t, bs).st)
              && Run(fs, s, bs).terminated == Run(fs, t, bs).terminated
    decreases |bs|
  {
    if bs != [] {
      StepSeen(fs, s, t, bs);
      if Step(fs, s, bs).Next? {
        var n := Step(fs, s, bs).n;
        RunSeen(fs, Step(fs, s, bs).st, Step(fs, t, bs).st, bs[n..]);
      }
    }
  }

  lemma StepEffect(fs: seq<Field>, st: State, bs: seq<byte>)
    requires bs != [] && Step(fs, st, bs).Next?
    ensures st.seen <= Step(fs, st, bs).st.seen
    ensures NoFixedCount(fs) ==>
              Step(fs, st, bs).st.fixedField == st.fixedField && Step(fs, st, bs).st.fixedCount == st.fixedCount
  {
    var key := Varint.Decode32(bs);
    var rest := bs[key.n..];
    var i := Find(fs, key.val / 8);
    if i < |fs| {
      FieldEffect(fs, i, key.val % 8, st, rest);
    }
  }

  lemma FieldEffect(fs: seq<Field>, i: nat, wireType: nat, st: State, bs: seq<byte>)
    requires i < |fs| && DecodeField(fs, i, wireType, st, bs).Next?
    ensures st.seen <= DecodeField(fs, i, wireType, st, bs).st.seen
    ensures !fs[i].htype.FixedCount? ==>
              && DecodeField(fs, i, wireType, st, bs).st.fixedField == st.fixedField
              && DecodeField(fs, i, wireType, st, bs).st.fixedCount == st.fixedCount
  {
  }

  /** The required fields seen only grow. */
  lemma {:induction false} SeenGrows(fs: seq<Field>, st: State, bs: seq<byte>)
    requires Run(fs, st, bs).Ended?
    ensures st.seen <= Run(fs, st, bs).st.seen
    decreases |bs|
  {
    if bs != [] && Step(fs, st, bs).Next? {
      StepEffect(fs, st, bs);
      SeenGrows(fs, Step(fs, st, bs).st, bs[Step(fs, st, bs).n..]);
    }
  }

  /** Without fields of fixed count the position tracker stays unused. */
  lemma {:induction false} FixedUnused(fs: seq<Field>, st: State, bs: seq<byte>)
    requires NoFixedCount(fs) && st.fixedField.None? && st.fixedCount == 0 && Run(fs, st, bs).Ended?
    ensures Run(fs, st, bs).st.fixedField.None? && Run(fs, st, bs).st.fixedCount == 0
    decreases |bs|
  {
    if bs != [] && Step(fs, st, bs).Next? {
      StepEffect(fs, st, bs);
      FixedUnused(fs, Step(fs, st, bs).st, bs[Step(fs, st, bs).n..]);
    }
  }

  /** Decoding a and then merging b into the same struct is decoding a ++ b. */
  lemma MergeIsConcat(fs: seq<Field>, m: Message, a: seq<byte>, b: seq<byte>)
    requires NoFixedCount(fs)
    requires !Run(fs, Start(m), a).Ended? || !Run(fs, Start(m), a).terminated
    requires Decode(fs, m, a).Some? && Decode(fs, Decode(fs, m, a).value, b).Some?
    ensures Decode(fs, m, a + b) == Decode(fs, Decode(fs, m, a).value, b)
  {
    var mid := Run(fs, Start(m), a).st;
    RunConcat(fs, Start(m), a, b);
    FixedUnused(fs, Start(m), a);
    RunSeen(fs, Start(mid.msg), mid, b);
    FixedUnused(fs, mid, b);
    SeenGrows(fs, mid, b);
  }

  // ----- Unknown fields -----

  /** One well-formed field the descriptor does not have: its tag, then content of the tag's wire type.
      (A tag of 0 in an empty descriptor is an error instead.) */
  predicate UnknownField(fs: seq<Field>, u: seq<byte>) {
    var key := Varint.Decode32(u);
    && key.Got?
    && key.val != 0
    && (fs != [] || key.val / 8 != 0)
    && Find(fs, key.val / 8) == |fs|
    && Skip(key.val % 8, u[key.n..]) == Got((), |u| - key.n)
  }

  /** An unknown field at any field boundary changes nothing. */
  lemma UnknownFieldIgnored(fs: seq<Field>, m: Message, a: seq<byte>, u: seq<byte>, b: seq<byte>)
    requires UnknownField(fs, u)
    requires Run(fs, Start(m), a).Ended? && !Run(fs, Start(m), a).terminated
    ensures Decode(fs, m, a + u + b) == Decode(fs, m, a + b)
  {
    var st := Run(fs, Start(m), a).st;
    assert Run(fs, st, u) == Ended(st, false) by {
      assert u[|u|..] == [];
    }
    RunConcat(fs, Start(m), a, u);
    RunConcat(fs, Start(m), a + u, b);
    RunConcat(fs, Start(m), a, b);
  }
}
