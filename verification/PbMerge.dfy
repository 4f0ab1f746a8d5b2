/** A nested message that occurs more than once: its occurrences merge, except inside a union. */
module PbMerge {
  import opened Bytes
  import opened PbTypes
  import opened PbEncode
  import opened PbDecode
  import opened PbFold
  import opened PbRoundTrip

  /** One occurrence of nested message i on the wire. */
  function Occurrence(fs: seq<Field>, i: nat, body: seq<byte>): seq<byte>
    requires i < |fs|
  {
    Tag(fs[i].tag, WT_STRING) + LengthPrefixed(body)
  }

  predicate IsNested(fs: seq<Field>, i: nat) {
    && WellFormed(fs) && i < |fs| && fs[i].ltype.Submessage?
    && (fs[i].htype.Required? || fs[i].htype.Optional? || fs[i].htype.Singular? || fs[i].htype.Oneof?)
  }

  /** What an occurrence is decoded into. */
  function Into(fs: seq<Field>, i: nat, st: State): Message
    requires IsNested(fs, i)
  {
    Initial(fs[i], SlotOld(fs[i], if i < |st.msg.slots| then st.msg.slots[i] else Many([])))
  }

  /** An occurrence decodes if and only if its body does. */
  lemma OccurrenceStep(fs: seq<Field>, i: nat, st: State, body: seq<byte>, rest: seq<byte>)
    requires IsNested(fs, i) && |body| < TWO_32
    ensures var m := Decode(fs[i].ltype.fields, Into(fs, i, st), body);
            Run(fs, st, Occurrence(fs, i, body) + rest) ==
            if m.Some? then Run(fs, Store(fs[i], i, st, Sub(m.value)), rest) else Failed
  {
    hide Run, Decode, Store, SlotOld, WellFormed;
    PrefixRoundTrip(body, rest);
    TaggedStep(fs, i, WT_STRING, st, LengthPrefixed(body), rest);
  }

  /** Outside a union, what is stored is what the next occurrence is decoded into; inside, each starts from defaults. */
  lemma StoredInto(fs: seq<Field>, i: nat, st: State, m: Message)
    requires IsNested(fs, i) && i < |st.msg.slots|
    ensures Into(fs, i, Store(fs[i], i, st, Sub(m))) ==
            if fs[i].htype.Oneof? then Defaults(fs[i].ltype.fields) else m
  {
  }

  lemma StoredTwice(fs: seq<Field>, i: nat, st: State, m1: Message, m2: Message)
    requires IsNested(fs, i)
    ensures Store(fs[i], i, Store(fs[i], i, st, Sub(m1)), Sub(m2)) == Store(fs[i], i, st, Sub(m2))
  {
    var f := fs[i];
    var twice, once := Store(f, i, Store(f, i, st, Sub(m1)), Sub(m2)), Store(f, i, st, Sub(m2));
    assert twice.msg.slots == once.msg.slots;
    assert twice.msg.which == once.msg.which;
    assert twice.seen == once.seen;
  }

  /** Two occurrences of a nested message that both decode are one with the bodies joined. */
  lemma OccurrencesMerge(fs: seq<Field>, i: nat, st: State, a: seq<byte>, b: seq<byte>, rest: seq<byte>)
    requires IsNested(fs, i) && !fs[i].htype.Oneof? && i < |st.msg.slots| && |a| + |b| < TWO_32
    requires var gs := fs[i].ltype.fields;
             && NoFixedCount(gs)
             && (!Run(gs, Start(Into(fs, i, st)), a).Ended? || !Run(gs, Start(Into(fs, i, st)), a).terminated)
             && Decode(gs, Into(fs, i, st), a).Some?
             && Decode(gs, Decode(gs, Into(fs, i, st), a).value, b).Some?
    ensures Run(fs, st, Occurrence(fs, i, a) + Occurrence(fs, i, b) + rest) ==
            Run(fs, st, Occurrence(fs, i, a + b) + rest)
  {
    hide Run, Decode, Store, SlotOld, Into, Occurrence, NoFixedCount;
    var gs := fs[i].ltype.fields;
    var m := Decode(gs, Into(fs, i, st), a).value;
    var more := Occurrence(fs, i, b) + rest;
    assert Occurrence(fs, i, a) + Occurrence(fs, i, b) + rest == Occurrence(fs, i, a) + more;
    OccurrenceStep(fs, i, st, a, more);
    StoredInto(fs, i, st, m);
    OccurrenceStep(fs, i, Store(fs[i], i, st, Sub(m)), b, rest);
    StoredTwice(fs, i, st, m, Decode(gs, m, b).value);
    MergeIsConcat(gs, Into(fs, i, st), a, b);
    OccurrenceStep(fs, i, st, a + b, rest);
  }

  /** Inside a union only the last occurrence counts; the others only have to decode. */
  lemma LastOccurrenceCounts(fs: seq<Field>, i: nat, st: State, a: seq<byte>, b: seq<byte>, rest: seq<byte>)
    requires IsNested(fs, i) && fs[i].htype.Oneof? && i < |st.msg.slots| && st.msg.slots[i].One?
    requires |a| < TWO_32 && |b| < TWO_32
    ensures Run(fs, st, Occurrence(fs, i, a) + Occurrence(fs, i, b) + rest) ==
            if Decode(fs[i].ltype.fields, Defaults(fs[i].ltype.fields), a).Some?
            then Run(fs, st, Occurrence(fs, i, b) + rest)
            else Failed
  {
    hide Run, Decode, Store, Occurrence;
    var gs := fs[i].ltype.fields;
    var more := Occurrence(fs, i, b) + rest;
    assert Occurrence(fs, i, a) + Occurrence(fs, i, b) + rest == Occurrence(fs, i, a) + more;
    IntoUnion(fs, i, st);
    OccurrenceStep(fs, i, st, a, more);
    var m := Decode(gs, Defaults(gs), a);
    if m.Some? {
      StoredInto(fs, i, st, m.value);
      OccurrenceStep(fs, i, Store(fs[i], i, st, Sub(m.value)), b, rest);
      OccurrenceStep(fs, i, st, b, rest);
      if Decode(gs, Defaults(gs), b).Some? {
        StoredTwice(fs, i, st, m.value, Decode(gs, Defaults(gs), b).value);
      }
    }
  }

  lemma IntoUnion(fs: seq<Field>, i: nat, st: State)
    requires IsNested(fs, i) && fs[i].htype.Oneof? && i < |st.msg.slots| && st.msg.slots[i].One?
    ensures Into(fs, i, st) == Defaults(fs[i].ltype.fields)
  {
  }
}
