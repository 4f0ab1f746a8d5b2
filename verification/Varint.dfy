/** Base-128 varints: what they mean, and the two decoders of the codec as functions of the input. */
module Varint {
  import opened Bits
  import opened Bytes

  const MAX_VARINT_BYTES := 10

  /** The canonical base-128 encoding, least significant group first. */
  function Encode(v: nat): (bs: seq<byte>)
    ensures |bs| >= 1
  {
    if v < 128 then [v] else [v % 128 + 128] + Encode(v / 128)
  }

  /** The number denoted by the varint at the front of bs, read with at most `limit` bytes. */
  function Digits(bs: seq<byte>, limit: nat): (p: Parse<nat>)
    ensures p.Got? ==> 0 < p.n <= |bs| && p.n <= limit
  {
    if limit == 0 || bs == [] then Fail
    else if bs[0] < 128 then Got(bs[0], 1)
    else
      match Digits(bs[1..], limit - 1)
      case Fail => Fail
      case Got(w, n) => Got(bs[0] - 128 + 128 * w, n + 1)
  }

  /** The general decoder: at most ten bytes, the value taken modulo 2^64. */
  function Decode(bs: seq<byte>): (p: Parse<nat>)
    ensures p.Got? ==> 0 < p.n <= |bs| && p.n <= MAX_VARINT_BYTES && p.val < TWO_64
  {
    match Digits(bs, MAX_VARINT_BYTES)
    case Fail => Fail
    case Got(w, n) => Got(w % TWO_64, n)
  }

  /** The bytes a skipped varint occupies: everything up to the first byte without a continuation bit. */
  function Skip(bs: seq<byte>): (p: Parse<()>)
    ensures p.Got? ==> 0 < p.n <= |bs|
  {
    if bs == [] then Fail
    else if bs[0] < 128 then Got((), 1)
    else
      match Skip(bs[1..])
      case Fail => Fail
      case Got(_, n) => Got((), n + 1)
  }

  /** The seven payload bits of a byte. */
  function Low7(b: byte): nat {
    if b < 128 then b else b - 128
  }

  /** What the 32-bit decoder refuses in a byte beyond bit 32. */
  predicate Overflows(b: byte, bitpos: nat, result: nat) {
    Low7(b) != 0 && (result < 0x8000_0000 || b != if bitpos < 63 then 0xFF else 0x01)
  }

  /** The bit position is an 8-bit counter. */
  function NextBitpos(bitpos: nat): nat {
    if bitpos + 7 < 256 then bitpos + 7 else bitpos + 7 - 256
  }

  function Merge(b: byte, bitpos: nat, result: nat): (r: nat)
    requires bitpos < 32
  {
    Or(result, ShiftLeft(Low7(b), bitpos) % TWO_32)
  }

  /** The multi-byte loop of the 32-bit decoder; bitpos is an 8-bit counter and the length is unbounded. */
  function Rest32(bs: seq<byte>, bitpos: nat, result: nat): (p: Parse<nat>)
    ensures p.Got? ==> 0 < p.n <= |bs|
  {
    if bs == [] then Fail
    else if bitpos >= 32 && Overflows(bs[0], bitpos, result) then Fail
    else
      var r := if bitpos >= 32 then result else Merge(bs[0], bitpos, result);
      if bs[0] >= 128 then
        match Rest32(bs[1..], NextBitpos(bitpos), r)
        case Fail => Fail
        case Got(v, n) => Got(v, n + 1)
      else if NextBitpos(bitpos) == 35 && bs[0] >= 16 then Fail
      else Got(r, 1)
  }

  /** The 32-bit decoder. */
  function Decode32(bs: seq<byte>): (p: Parse<nat>)
    ensures p.Got? ==> 0 < p.n <= |bs|
  {
    if bs == [] then Fail
    else if bs[0] < 128 then Got(bs[0], 1)
    else
      match Rest32(bs[1..], 7, Low7(bs[0]))
      case Fail => Fail
      case Got(v, n) => Got(v, n + 1)
  }

  // ----- Length and round trip of the general decoder -----

  lemma {:induction false} EncodeLength(v: nat, k: nat)
    requires 1 <= k
    requires v < ShiftLeft(1, 7 * k)
    ensures |Encode(v)| <= k
  {
    ShiftLeftGroup(1, 7 * (k - 1));
    if v >= 128 {
      EncodeLength(v / 128, k - 1);
    }
  }

  lemma {:induction false} DigitsOfEncode(v: nat, tail: seq<byte>, limit: nat)
    requires |Encode(v)| <= limit
    ensures Digits(Encode(v) + tail, limit) == Got(v, |Encode(v)|)
  {
    var bs := Encode(v) + tail;
    if v >= 128 {
      assert bs[1..] == Encode(v / 128) + tail;
      DigitsOfEncode(v / 128, tail, limit - 1);
    }
  }

  /** Every 64-bit value is encoded in at most ten bytes and decoded back, whatever follows it. */
  lemma {:induction false} RoundTrip(v: nat, tail: seq<byte>)
    requires v < TWO_64
    ensures |Encode(v)| <= MAX_VARINT_BYTES
    ensures Decode(Encode(v) + tail) == Got(v, |Encode(v)|)
  {
    Powers();
    EncodeLength(v, MAX_VARINT_BYTES);
    DigitsOfEncode(v, tail, MAX_VARINT_BYTES);
  }

  // ----- Consumed prefixes decide the outcome -----

  lemma {:induction false} DigitsStable(a: seq<byte>, b: seq<byte>, limit: nat)
    requires Digits(a, limit).Got?
    ensures Digits(a + b, limit) == Digits(a, limit)
  {
    if a[0] >= 128 {
      assert (a + b)[1..] == a[1..] + b;
      DigitsStable(a[1..], b, limit - 1);
    }
  }

  lemma {:induction false} SkipStable(a: seq<byte>, b: seq<byte>)
    requires Skip(a).Got?
    ensures Skip(a + b) == Skip(a)
  {
    if a[0] >= 128 {
      assert (a + b)[1..] == a[1..] + b;
      SkipStable(a[1..], b);
    }
  }

  lemma {:induction false} Rest32Stable(a: seq<byte>, b: seq<byte>, bitpos: nat, result: nat)
    requires Rest32(a, bitpos, result).Got?
    ensures Rest32(a + b, bitpos, result) == Rest32(a, bitpos, result)
  {
    var r := if bitpos >= 32 then result else Merge(a[0], bitpos, result);
    if a[0] >= 128 {
      assert (a + b)[1..] == a[1..] + b;
      Rest32Stable(a[1..], b, NextBitpos(bitpos), r);
    }
  }

  lemma {:induction false} Decode32Stable(a: seq<byte>, b: seq<byte>)
    requires Decode32(a).Got?
    ensures Decode32(a + b) == Decode32(a)
  {
    if a[0] >= 128 {
      assert (a + b)[1..] == a[1..] + b;
      Rest32Stable(a[1..], b, 7, Low7(a[0]));
    }
  }

  // ----- The 32-bit decoder refines the general one -----

  /** w shifted left by k groups of seven bits, for the groups that start below bit 32. */
  function Place(w: nat, k: nat): nat {
    if k == 0 then w
    else if k == 1 then 0x80 * w
    else if k == 2 then 0x4000 * w
    else if k == 3 then 0x20_0000 * w
    else 0x1000_0000 * w
  }

  lemma {:induction false} PlaceIsShift(w: nat, k: nat)
    requires k <= 4
    ensures ShiftLeft(w, 7 * k) == Place(w, k)
  {
    if k != 0 {
      PlaceIsShift(w, k - 1);
      ShiftLeftGroup(w, 7 * (k - 1));
    }
  }

  /** Merging group k below bit 32 adds its place value; of the group at bit 28 only four bits survive. */
  lemma MergeAdds(b: byte, k: nat, result: nat)
    requires 1 <= k <= 4 && result < Place(1, k)
    ensures Merge(b, 7 * k, result) == result + Place(if k == 4 then Low7(b) % 16 else Low7(b), k)
  {
    var c := if k == 4 then Low7(b) % 16 else Low7(b);
    PlaceIsShift(1, k);
    PlaceIsShift(c, k);
    PlaceIsShift(Low7(b), k);
    if k == 4 {
      Truncate28(Low7(b));
    }
    OrDisjoint(result, c, 7 * k);
  }

  lemma Truncate28(c: nat)
    requires c < 128
    ensures 0x1000_0000 * c % TWO_32 == 0x1000_0000 * (c % 16)
  {
    assert 0x1000_0000 * c == TWO_32 * (c / 16) + 0x1000_0000 * (c % 16);
  }

  /** Beyond bit 32 the loop only checks: the result no longer changes. */
  lemma {:induction false} HighGroupsKept(bs: seq<byte>, k: nat, result: nat)
    requires 5 <= k <= 9
    requires Rest32(bs, 7 * k, result).Got? && Rest32(bs, 7 * k, result).n <= 10 - k
    ensures Digits(bs, 10 - k).Got?
    ensures Rest32(bs, 7 * k, result) == Got(result, Digits(bs, 10 - k).n)
    decreases 10 - k
  {
    if bs[0] >= 128 {
      assert NextBitpos(7 * k) == 7 * (k + 1);
      HighGroupsKept(bs[1..], k + 1, result);
    }
  }

  /** The loop at group k agrees with the digits still to come, up to a multiple of 2^32. */
  lemma {:induction false} Rest32Refines(bs: seq<byte>, k: nat, result: nat) returns (q: nat)
    requires 1 <= k <= 4 && result < Place(1, k)
    requires Rest32(bs, 7 * k, result).Got? && Rest32(bs, 7 * k, result).n <= 10 - k
    ensures Digits(bs, 10 - k).Got? && Rest32(bs, 7 * k, result).n == Digits(bs, 10 - k).n
    ensures result + Place(Digits(bs, 10 - k).val, k) == Rest32(bs, 7 * k, result).val + TWO_32 * q
    ensures Rest32(bs, 7 * k, result).val < TWO_32
    decreases 4 - k
  {
    var b, t := bs[0], bs[1..];
    var r := Merge(b, 7 * k, result);
    MergeAdds(b, k, result);
    if b < 128 {
      q := 0;
    } else if k < 4 {
      q := Rest32Refines(t, k + 1, r);
    } else {
      HighGroupsKept(t, 5, r);
      q := (b - 128) / 16 + 8 * Digits(t, 5).val;
    }
  }

  /** On at most ten bytes the 32-bit decoder returns the low half of the general decoder's value. */
  lemma {:induction false} Decode32Refines(bs: seq<byte>)
    requires Decode32(bs).Got? && Decode32(bs).n <= MAX_VARINT_BYTES
    ensures Decode(bs).Got?
    ensures Decode32(bs).n == Decode(bs).n
    ensures Decode32(bs).val == Decode(bs).val % TWO_32
  {
    if bs[0] >= 128 {
      var q := Rest32Refines(bs[1..], 1, Low7(bs[0]));
      LowHalf(Decode32(bs).val, q);
    }
  }

  /** A varint that is accepted by either decoder ends where skipping it ends. */
  lemma {:induction false} Rest32Length(bs: seq<byte>, bitpos: nat, result: nat)
    requires Rest32(bs, bitpos, result).Got?
    ensures Skip(bs) == Got((), Rest32(bs, bitpos, result).n)
  {
    if bs[0] >= 128 {
      Rest32Length(bs[1..], NextBitpos(bitpos), if bitpos >= 32 then result else Merge(bs[0], bitpos, result));
    }
  }

  lemma {:induction false} DigitsLength(bs: seq<byte>, limit: nat)
    ensures Digits(bs, limit).Got? ==> Skip(bs) == Got((), Digits(bs, limit).n)
  {
    if limit != 0 && bs != [] && bs[0] >= 128 {
      DigitsLength(bs[1..], limit - 1);
    }
  }

  /** Of the varints the 32-bit decoder accepts, the general one accepts exactly those of at most ten bytes. */
  lemma DecodersAgree(bs: seq<byte>)
    requires Decode32(bs).Got?
    ensures Decode(bs).Got? <==> Decode32(bs).n <= MAX_VARINT_BYTES
    ensures Decode(bs).Got? ==> Decode(bs).n == Decode32(bs).n && Decode32(bs).val == Decode(bs).val % TWO_32
  {
    DigitsLength(bs, MAX_VARINT_BYTES);
    if bs[0] >= 128 {
      Rest32Length(bs[1..], 7, Low7(bs[0]));
    }
    if Decode32(bs).n <= MAX_VARINT_BYTES {
      Decode32Refines(bs);
    }
  }

  /** m groups without payload that all announce another one. */
  function EmptyGroups(m: nat): (bs: seq<byte>)
    ensures |bs| == m
  {
    if m == 0 then [] else [0x80] + EmptyGroups(m - 1)
  }

  /** The bit position m groups on. */
  function Position(m: nat, bitpos: nat): nat {
    if m == 0 then bitpos else Position(m - 1, NextBitpos(bitpos))
  }

  lemma {:induction false} PositionWraps(m: nat, bitpos: nat)
    requires bitpos < 256
    ensures Position(m, bitpos) == (bitpos + 7 * m) % 256
  {
    if m != 0 {
      PositionWraps(m - 1, NextBitpos(bitpos));
      WrapOnce(bitpos + 7 * m);
    }
  }

  lemma WrapOnce(x: nat)
    ensures x >= 256 ==> (x - 256) % 256 == x % 256
  {
  }

  function Behind(p: Parse<nat>, m: nat): Parse<nat> {
    match p
    case Fail => Fail
    case Got(v, n) => Got(v, n + m)
  }

  /** Such groups only move the bit position. */
  lemma {:induction false} EmptyGroupsSkipped(m: nat, bitpos: nat, tail: seq<byte>)
    ensures Rest32(EmptyGroups(m) + tail, bitpos, 0) == Behind(Rest32(tail, Position(m, bitpos), 0), m)
  {
    var bs := EmptyGroups(m) + tail;
    if m == 0 {
      assert bs == tail;
    } else {
      assert bs[1..] == EmptyGroups(m - 1) + tail;
      ShiftScale(0, bitpos);
      EmptyGroupsSkipped(m - 1, NextBitpos(bitpos), tail);
    }
  }

  /** The 32-bit decoder puts no bound on the length: what follows m empty groups lands at bit 7m modulo 256. */
  lemma EmptyGroupsWrap(m: nat, tail: seq<byte>)
    requires m >= 1
    ensures Decode32(EmptyGroups(m) + tail) == Behind(Rest32(tail, 7 * m % 256, 0), m)
  {
    var bs := EmptyGroups(m) + tail;
    assert bs[1..] == EmptyGroups(m - 1) + tail;
    PositionWraps(m - 1, 7);
    EmptyGroupsSkipped(m - 1, 7, tail);
  }

  /** Ten empty groups and a zero are accepted by the 32-bit decoder alone; behind 37 of them a 1 is read as 8. */
  lemma LongVarints()
    ensures Decode32(EmptyGroups(10) + [0]) == Got(0, 11) && Decode(EmptyGroups(10) + [0]).Fail?
    ensures Decode32(EmptyGroups(37) + [1]) == Got(8, 38)
  {
    EmptyGroupsWrap(10, [0]);
    DecodersAgree(EmptyGroups(10) + [0]);
    EmptyGroupsWrap(37, [1]);
    assert ShiftLeft(1, 3) == 8;
  }

  lemma LowHalf(v: nat, q: nat)
    requires v < TWO_32
    ensures (v + TWO_32 * q) % TWO_64 % TWO_32 == v
  {
    var w := v + TWO_32 * q;
    assert w % TWO_64 == v + TWO_32 * (q - TWO_32 * (w / TWO_64));
  }

  // ----- What the 32-bit decoder accepts -----

  lemma {:induction false} Rest32OfEncode(u: nat, tail: seq<byte>, k: nat, result: nat)
    requires 1 <= k <= 4 && result < Place(1, k) && Place(u, k) < TWO_32
    ensures Rest32(Encode(u) + tail, 7 * k, result) == Got(result + Place(u, k), |Encode(u)|)
    decreases 4 - k
  {
    var bs := Encode(u) + tail;
    MergeAdds(bs[0], k, result);
    if u >= 128 {
      assert bs[1..] == Encode(u / 128) + tail;
      Rest32OfEncode(u / 128, tail, k + 1, Merge(bs[0], 7 * k, result));
    }
  }

  /** Every canonical encoding below 2^32 is accepted and decoded exactly. */
  lemma Decode32OfEncode(v: nat, tail: seq<byte>)
    requires v < TWO_32
    ensures Decode32(Encode(v) + tail) == Got(v, |Encode(v)|)
  {
    var bs := Encode(v) + tail;
    if v >= 128 {
      assert bs[1..] == Encode(v / 128) + tail;
      Rest32OfEncode(v / 128, tail, 1, Low7(bs[0]));
    }
  }

  /** The sign-extended tail of a negative 32-bit value, from bit 35 on. */
  lemma {:induction false} SignExtensionAccepted(u: nat, tail: seq<byte>, k: nat, result: nat)
    requires 5 <= k <= 9 && 0x8000_0000 <= result
    requires u == OnesFrom(k)
    ensures Rest32(Encode(u) + tail, 7 * k, result) == Got(result, 10 - k)
    decreases 10 - k
  {
    if k < 9 {
      var bs := Encode(u) + tail;
      assert bs[1..] == Encode(u / 128) + tail;
      SignExtensionAccepted(u / 128, tail, k + 1, result);
    }
  }

  /** The bits from 7k up to bit 63, all set. */
  function OnesFrom(k: nat): nat
    decreases 9 - k
  {
    if k >= 9 then 1 else 127 + 128 * OnesFrom(k + 1)
  }

  lemma OnesValue()
    ensures OnesFrom(5) == 0x1fff_ffff
  {
    assert OnesFrom(7) == 0x7fff;
  }

  lemma {:induction false} NegativeRest32(u: nat, tail: seq<byte>, k: nat, result: nat)
    requires 1 <= k <= 4 && result < Place(1, k)
    requires Place(u, k) < TWO_64 && TWO_64 - 0x8000_0000 <= Place(u, k) + result
    ensures Rest32(Encode(u) + tail, 7 * k, result) == Got(result + Place(u, k) - (TWO_64 - TWO_32), 10 - k)
    decreases 4 - k
  {
    var bs := Encode(u) + tail;
    assert bs[1..] == Encode(u / 128) + tail;
    MergeAdds(bs[0], k, result);
    if k < 4 {
      NegativeRest32(u / 128, tail, k + 1, Merge(bs[0], 7 * k, result));
    } else {
      NegativeAt28(u, tail, result);
    }
  }

  lemma NegativeAt28(u: nat, tail: seq<byte>, result: nat)
    requires result < 0x1000_0000 && 0x1000_0000 * u < TWO_64
    requires TWO_64 - 0x8000_0000 <= 0x1000_0000 * u + result
    ensures Rest32(Encode(u) + tail, 28, result) == Got(result + 0x1000_0000 * u - (TWO_64 - TWO_32), 6)
  {
    var bs := Encode(u) + tail;
    assert bs[1..] == Encode(u / 128) + tail;
    hide Merge;
    MergeAdds(bs[0], 4, result);
    assert u / 128 == 0x1fff_ffff && u % 16 >= 8;
    OnesValue();
    SignExtensionAccepted(u / 128, tail, 5, Merge(bs[0], 28, result));
  }

  /** Every negative 32-bit value, sign-extended to ten bytes, is accepted and keeps its low 32 bits. */
  lemma Decode32OfNegative(v: int, tail: seq<byte>)
    requires -0x8000_0000 <= v < 0
    ensures Decode32(Encode(v + TWO_64) + tail) == Got(v + TWO_32, MAX_VARINT_BYTES)
  {
    var u := v + TWO_64;
    var bs := Encode(u) + tail;
    assert bs[1..] == Encode(u / 128) + tail;
    NegativeRest32(u / 128, tail, 1, Low7(bs[0]));
  }

  // ----- Zig-zag -----

  /** The unsigned image of a signed 64-bit value: its word shifted left, complemented if the value is negative. */
  function ZigZag(v: int): nat {
    var shifted := ShiftLeft(v % TWO_64, 1) % TWO_64;
    if v < 0 then Not(shifted, 64) else shifted
  }

  /** The word shifted right, complemented if it was odd, read as a signed value. */
  function UnZigZag(u: nat): int {
    ToSigned(if And(u, 1) == 1 then Not(u / 2, 64) else u / 2, 8)
  }

  lemma NotWord(w: nat)
    requires w < TWO_64
    ensures Not(w, 64) == TWO_64 - 1 - w
  {
    Powers();
    NotValue(w, 64);
  }

  lemma ZigZagValue(v: int)
    requires InSigned(v, 8)
    ensures ZigZag(v) == if v < 0 then -2 * v - 1 else 2 * v
  {
    hide Not;
    var w := if v < 0 then v + TWO_64 else v;
    assert v % TWO_64 == w && ShiftLeft(w, 1) == 2 * w;
    NotWord(2 * w % TWO_64);
  }

  lemma UnZigZagValue(u: nat)
    requires InUnsigned(u, 8)
    ensures UnZigZag(u) == if u % 2 == 1 then -(u / 2) - 1 else u / 2
  {
    hide Not, ToSigned;
    LowestBit(u);
    NotWord(u / 2);
    HighWord(if u % 2 == 1 then TWO_64 - 1 - u / 2 else u / 2);
  }

  lemma LowestBit(u: nat)
    ensures And(u, 1) == u % 2
  {
    assert u != 0 ==> And(u, 1) == 2 * And(u / 2, 0) + u % 2;
  }

  lemma HighWord(w: nat)
    requires w < TWO_64
    ensures ToSigned(w, 8) == if w < Half(8) then w else w - TWO_64
  {
    assert w % Modulus(8) == w;
  }

  /** Zig-zag is a bijection between the signed and the unsigned 64-bit values that keeps every narrower width. */
  lemma ZigZagBijection(v: int, u: nat, width: nat)
    requires InSigned(v, 8) && InUnsigned(u, 8) && IntegerWidth(width)
    ensures UnZigZag(ZigZag(v)) == v && ZigZag(UnZigZag(u)) == u
    ensures InSigned(v, width) <==> InUnsigned(ZigZag(v), width)
  {
    hide ZigZag, UnZigZag;
    ZigZagValue(v);
    UnZigZagValue(ZigZag(v));
    UnZigZagValue(u);
    ZigZagValue(UnZigZag(u));
  }
}
