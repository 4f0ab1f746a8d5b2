/** Buffer-backed input and output streams, and the loops that read and write varints on them. */
module PbStreams {
  import opened Bits
  import opened Bytes
  import opened PbTypes
  import Varint
  import PbDecode

  class IStream {
    const data: seq<byte>
    var pos: nat        // the state pointer
    var bytesLeft: nat

    ghost predicate Valid()
      reads this
    {
      pos + bytesLeft <= |data|
    }

    /** What may still be read. */
    ghost function Rest(): seq<byte>
      reads this
      requires Valid()
    {
      data[pos..pos + bytesLeft]
    }

    constructor FromBuffer(buf: seq<byte>)
      ensures Valid() && Rest() == buf && data == buf
    {
      data, pos, bytesLeft := buf, 0, |buf|;
    }

    /** The struct copy that makes a substream. */
    constructor Sub(parent: IStream, size: nat)
      requires parent.Valid() && size <= parent.bytesLeft
      ensures Valid() && data == parent.data && pos == parent.pos && bytesLeft == size
    {
      data, pos, bytesLeft := parent.data, parent.pos, size;
    }

    /** What was to be read from the old position is p; ok tells whether there was such a value, v is that value. */
    twostate predicate Parsed<T>(ok: bool, new v: T, new p: Parse<T>)
      reads this
    {
      && Valid()
      && (ok <==> p.Got?)
      && (ok ==> v == p.val && pos == old(pos) + p.n && bytesLeft + p.n == old(bytesLeft))
      && pos + bytesLeft <= old(pos + bytesLeft)
    }

    method ReadByte() returns (ok: bool, b: byte)
      requires Valid()
      modifies this
      ensures Valid() && pos + bytesLeft == old(pos + bytesLeft)
      ensures ok <==> old(bytesLeft) > 0
      ensures ok ==> b == old(Rest())[0] && pos == old(pos) + 1
      ensures !ok ==> pos == old(pos)
    {
      if bytesLeft == 0 {
        return false, 0;
      }
      b := data[pos];
      pos, bytesLeft := pos + 1, bytesLeft - 1;
      return true, b;
    }

    method Read(count: nat) returns (ok: bool, bytes: seq<byte>)
      requires Valid()
      modifies this
      ensures Valid() && pos + bytesLeft == old(pos + bytesLeft)
      ensures ok <==> count <= old(bytesLeft)
      ensures ok ==> bytes == old(Rest())[..count] && pos == old(pos) + count
      ensures !ok ==> pos == old(pos)
    {
      if bytesLeft < count {
        return false, [];
      }
      bytes := data[pos..pos + count];
      pos, bytesLeft := pos + count, bytesLeft - count;
      return true, bytes;
    }

    /** pb_decode_varint32: the result of the specified 32-bit decoder on the remaining bytes. */
    method DecodeVarint32() returns (ok: bool, v: nat)
      requires Valid()
      modifies this
      ensures Valid() && pos + bytesLeft == old(pos + bytesLeft)
      ensures ok <==> Varint.Decode32(old(Rest())).Got?
      ensures ok ==> v == Varint.Decode32(old(Rest())).val && pos == old(pos) + Varint.Decode32(old(Rest())).n
    {
      ghost var bs := Rest();
      var b;
      ok, b := ReadByte();
      if !ok {
        return false, 0;
      }
      if b < 128 {
        return true, b;
      }
      v := b - 128;
      var bitpos: nat := 7;
      ghost var i := 1;
      while true
        invariant Valid() && pos + bytesLeft == old(pos + bytesLeft) && pos == old(pos) + i
        invariant 1 <= i <= |bs| && Rest() == bs[i..]
        invariant Varint.Decode32(bs) == Later(Varint.Rest32(bs[i..], bitpos, v), i)
        decreases bytesLeft
      {
        ok, b := ReadByte();
        if !ok {
          return false, 0;
        }
        assert bs[i..][1..] == bs[i + 1..];
        if bitpos >= 32 {
          if Varint.Overflows(b, bitpos, v) {
            return false, 0;
          }
        } else {
          v := Or(v, ShiftLeft(Varint.Low7(b), bitpos) % TWO_32);
        }
        bitpos := Varint.NextBitpos(bitpos);
        i := i + 1;
        if b < 128 {
          break;
        }
      }
      if bitpos == 35 && b >= 16 {
        return false, 0;
      }
      return true, v;
    }

    /** pb_decode_varint: at most ten bytes, the value modulo 2^64. */
    method DecodeVarint() returns (ok: bool, v: nat)
      requires Valid()
      modifies this
      ensures Valid() && pos + bytesLeft == old(pos + bytesLeft)
      ensures ok <==> Varint.Decode(old(Rest())).Got?
      ensures ok ==> v == Varint.Decode(old(Rest())).val && pos == old(pos) + Varint.Decode(old(Rest())).n
    {
      ghost var bs := Rest();
      v := 0;
      var bitpos: nat := 0;
      ghost var i := 0;
      while true
        invariant Valid() && pos + bytesLeft == old(pos + bytesLeft) && pos == old(pos) + i
        invariant 0 <= i <= |bs| && i <= 10 && bitpos == 7 * i && Rest() == bs[i..]
        invariant v < ShiftLeft(1, bitpos) && v < TWO_64
        invariant Varint.Decode(bs) == Resumed(bs[i..], i, v)
        decreases bytesLeft
      {
        if bitpos >= 64 {
          return false, 0;
        }
        var b;
        ok, b := ReadByte();
        if !ok {
          return false, 0;
        }
        ResumeStep(bs[i..], i, v);
        assert bs[i..][1..] == bs[i + 1..];
        v := Or(v, ShiftLeft(Varint.Low7(b), bitpos) % TWO_64);
        bitpos := bitpos + 7;
        i := i + 1;
        if b < 128 {
          return true, v;
        }
      }
    }

    /** pb_skip_varint, which sets no bound on the length. */
    method SkipVarint() returns (ok: bool)
      requires Valid()
      modifies this
      ensures Valid() && pos + bytesLeft == old(pos + bytesLeft)
      ensures ok <==> Varint.Skip(old(Rest())).Got?
      ensures ok ==> pos == old(pos) + Varint.Skip(old(Rest())).n
    {
      ghost var bs := Rest();
      ghost var i := 0;
      while true
        invariant Valid() && pos + bytesLeft == old(pos + bytesLeft) && pos == old(pos) + i
        invariant 0 <= i <= |bs| && Rest() == bs[i..]
        invariant Varint.Skip(bs) == Later(Varint.Skip(bs[i..]), i)
        decreases bytesLeft
      {
        var b;
        ok, b := ReadByte();
        if !ok {
          return false;
        }
        assert bs[i..][1..] == bs[i + 1..];
        i := i + 1;
        if b < 128 {
          return true;
        }
      }
    }

    /** pb_skip_field. */
    method SkipField(wireType: nat) returns (ok: bool)
      requires Valid()
      modifies this
      ensures Valid() && pos + bytesLeft == old(pos + bytesLeft)
      ensures ok <==> PbDecode.Skip(wireType, old(Rest())).Got?
      ensures ok ==> pos == old(pos) + PbDecode.Skip(wireType, old(Rest())).n
    {
      var skipped: seq<byte>;
      if wireType == WT_VARINT {
        ok := SkipVarint();
      } else if wireType == WT_64BIT {
        ok, skipped := Read(8);
      } else if wireType == WT_STRING {
        var length;
        ok, length := DecodeVarint32();
        if ok {
          ok, skipped := Read(length);
        }
      } else if wireType == WT_32BIT {
        ok, skipped := Read(4);
      } else {
        return false;
      }
    }

    /** pb_make_string_substream: the parent gives up the bytes but does not yet move past them. */
    method MakeSubstream() returns (ok: bool, sub: IStream)
      requires Valid()
      modifies this
      ensures Valid()
      ensures fresh(sub) && sub.Valid()
      ensures ok <==> PbDecode.Delimited(old(Rest())).Got?
      ensures ok ==>
                && sub.Rest() == PbDecode.Delimited(old(Rest())).val
                && sub.pos == pos && sub.data == data
                && pos + |PbDecode.Delimited(old(Rest())).val| == old(pos) + PbDecode.Delimited(old(Rest())).n
                && pos + sub.bytesLeft + bytesLeft == old(pos + bytesLeft)
      ensures !ok ==> pos + bytesLeft == old(pos + bytesLeft)
    {
      ghost var bs := Rest();
      var size;
      ok, size := DecodeVarint32();
      if !ok || bytesLeft < size {
        sub := new IStream.Sub(this, 0);
        return false, sub;
      }
      sub := new IStream.Sub(this, size);
      bytesLeft := bytesLeft - size;
      SliceOfSlice(data, old(pos), old(pos) + |bs|, Varint.Decode32(bs).n, size);
    }

    /** pb_close_string_substream: whatever the substream left is skipped, and the parent resumes after it. */
    method CloseSubstream(sub: IStream) returns (ok: bool)
      requires sub != this && sub.Valid() && sub.data == data && sub.pos + sub.bytesLeft + bytesLeft <= |data|
      modifies this, sub
      ensures ok && Valid() && pos == old(sub.pos + sub.bytesLeft) && bytesLeft == old(bytesLeft)
    {
      if sub.bytesLeft > 0 {
        var skipped: seq<byte>;
        ok, skipped := sub.Read(sub.bytesLeft);
        if !ok {
          return false;
        }
      }
      pos := sub.pos;
      return true;
    }
  }

  class OStream {
    const sizing: bool        // no callback: bytes are counted, not stored
    const buf: array<byte>
    const maxSize: nat
    var state: nat            // the next position in buf
    var bytesWritten: nat

    ghost predicate Valid()
      reads this
    {
      !sizing ==> bytesWritten <= maxSize && state + (maxSize - bytesWritten) <= buf.Length
    }

    /** PB_OSTREAM_SIZING. */
    constructor Sizing()
      ensures Valid() && sizing && bytesWritten == 0 && fresh(buf)
    {
      sizing, buf, maxSize, state, bytesWritten := true, new byte[0], 0, 0, 0;
    }

    /** pb_ostream_from_buffer. */
    constructor FromBuffer(b: array<byte>)
      ensures Valid() && !sizing && buf == b && maxSize == b.Length && state == 0 && bytesWritten == 0
    {
      sizing, buf, maxSize, state, bytesWritten := false, b, b.Length, 0, 0;
    }

    /** The stream a submessage is written through. */
    constructor Sub(parent: OStream, size: nat)
      requires parent.Valid() && !parent.sizing && parent.bytesWritten + size <= parent.maxSize
      ensures Valid() && !sizing && buf == parent.buf && maxSize == size && state == parent.state && bytesWritten == 0
    {
      sizing, buf, maxSize, state, bytesWritten := false, parent.buf, size, parent.state, 0;
    }

    ghost predicate Room(n: nat)
      reads this
    {
      sizing || bytesWritten + n <= maxSize
    }

    /** From the old state, e was to be written and ok tells whether it was: that takes an encoding and the room for
        it. Bytes before the old position are untouched. */
    twostate predicate Wrote(ok: bool, new e: Option<seq<byte>>)
      requires old(Valid())
      reads this, buf
    {
      && Valid()
      && (ok <==> e.Some? && old(Room(|e.value|)))
      && (ok ==> bytesWritten == old(bytesWritten) + |e.value|)
      && (sizing ==> buf[..] == old(buf[..]))
      && (!sizing ==>
            && old(state) <= state <= buf.Length
            && buf[..old(state)] == old(buf[..state])
            && (ok ==> state == old(state) + |e.value| && buf[old(state)..state] == e.value))
    }

    /** pb_write with buf_write. */
    method Write(bytes: seq<byte>) returns (ok: bool)
      requires Valid()
      modifies this, buf
      ensures Wrote(ok, Some(bytes))
    {
      if !sizing {
        if bytesWritten + |bytes| > maxSize {
          return false;
        }
        for i := 0 to |bytes|
          invariant state == old(state) && bytesWritten == old(bytesWritten)
          invariant buf[..state] == old(buf[..state])
          invariant buf[state..state + i] == bytes[..i]
        {
          buf[state + i] := bytes[i];
        }
        state := state + |bytes|;
      }
      bytesWritten := bytesWritten + |bytes|;
      return true;
    }

    /** pb_write without data, on a sizing stream. */
    method Count(n: nat)
      requires Valid() && sizing
      modifies this
      ensures Valid() && bytesWritten == old(bytesWritten) + n && state == old(state)
    {
      bytesWritten := bytesWritten + n;
    }

    /** pb_encode_varint: groups are collected in a ten-byte buffer and written at once. */
    method EncodeVarint(v: nat) returns (ok: bool)
      requires Valid() && v < TWO_64
      modifies this, buf
      ensures Wrote(ok, Some(Varint.Encode(v)))
    {
      if v <= 0x7F {
        ok := Write([v]);
        return;
      }
      Varint.RoundTrip(v, []);
      var buffer := new byte[10];
      var i: nat, value: nat := 0, v;
      while value > 0
        invariant 0 <= i <= 10
        invariant value > 0 ==> Varint.Encode(v) == buffer[..i] + Varint.Encode(value)
        invariant value == 0 ==> i > 0 && buffer[i - 1] >= 128 && Varint.Encode(v) == buffer[..i - 1] + [buffer[i - 1] - 128]
        invariant Valid() && state == old(state) && bytesWritten == old(bytesWritten) && buf[..] == old(buf[..])
        decreases value
      {
        buffer[i] := value % 128 + 128;
        value := value / 128;
        i := i + 1;
      }
      buffer[i - 1] := buffer[i - 1] - 128;
      assert buffer[..i] == Varint.Encode(v);
      ok := Write(buffer[..i]);
    }
  }

  /** A parse that starts i bytes later. */
  function Later<T>(p: Parse<T>, i: nat): Parse<T> {
    match p
    case Fail => Fail
    case Got(v, n) => Got(v, n + i)
  }

  lemma SliceOfSlice<T>(s: seq<T>, lo: nat, hi: nat, n: nat, size: nat)
    requires lo <= hi <= |s| && n + size <= hi - lo
    ensures s[lo..hi][n..n + size] == s[lo + n..lo + n + size]
  {
    var a, b := s[lo..hi][n..n + size], s[lo + n..lo + n + size];
    forall k | 0 <= k < size ensures a[k] == b[k] {
      assert s[lo..hi][n + k] == s[lo + n + k];
    }
    assert a == b;
  }

  /** The general decoder's outcome when i bytes worth v have been read and t is still to come. */
  function Resumed(t: seq<byte>, i: nat, v: nat): Parse<nat>
    requires i <= 10
  {
    match Varint.Digits(t, 10 - i)
    case Fail => Fail
    case Got(w, n) => Got((v + ShiftLeft(w, 7 * i)) % TWO_64, n + i)
  }

  /** One byte more: its group is merged, and the outcome is decided or stays the same. */
  lemma ResumeStep(t: seq<byte>, i: nat, v: nat)
    requires t != [] && i <= 9 && v < ShiftLeft(1, 7 * i) && v < TWO_64
    ensures var r := Or(v, ShiftLeft(Varint.Low7(t[0]), 7 * i) % TWO_64);
            && r < TWO_64 && r < ShiftLeft(1, 7 * (i + 1))
            && Resumed(t, i, v) == if t[0] < 128 then Got(r, i + 1) else Resumed(t[1..], i + 1, r)
  {
    var c := Varint.Low7(t[0]);
    MergeGroup(v, c, 7 * i);
    if t[0] >= 128 && Varint.Digits(t[1..], 9 - i).Got? {
      var w := Varint.Digits(t[1..], 9 - i).val;
      ShiftLeftAdd(c, 128 * w, 7 * i);
      ShiftLeftGroup(w, 7 * i);
      AddModulo(v + ShiftLeft(c, 7 * i), ShiftLeft(w, 7 * i + 7));
    }
  }

  lemma AddModulo(x: nat, y: nat)
    ensures (x % TWO_64 + y) % TWO_64 == (x + y) % TWO_64
  {
  }

  /** Merging a group at a bit position up to 63 adds it, the bits beyond 64 dropped. */
  lemma MergeGroup(v: nat, c: nat, bitpos: nat)
    requires v < ShiftLeft(1, bitpos) && v < TWO_64 && c < 128 && bitpos <= 63 && bitpos % 7 == 0
    ensures var r := Or(v, ShiftLeft(c, bitpos) % TWO_64);
            r < TWO_64 && r < ShiftLeft(1, bitpos + 7) && r == (v + ShiftLeft(c, bitpos)) % TWO_64
  {
    if bitpos == 63 {
      TopGroup(v, c);
      Powers();
    } else {
      WholeGroup(v, c, bitpos);
    }
  }

  /** Groups below bit 63 are merged whole. */
  lemma WholeGroup(v: nat, c: nat, bitpos: nat)
    requires v < ShiftLeft(1, bitpos) && c < 128 && bitpos <= 56
    ensures var s := ShiftLeft(c, bitpos);
            && v + s < ShiftLeft(1, bitpos + 7) < TWO_64
            && Or(v, s % TWO_64) == v + s == (v + s) % TWO_64
  {
    hide ShiftLeft, Or;
    ShiftLeftGroup(1, bitpos);
    ShiftLeftAdd(c, 1, bitpos);
    ShiftLeftMonotone(c + 1, 128, bitpos);
    SmallShift(bitpos);
    OrDisjoint(v, c, bitpos);
  }

  lemma {:induction false} SmallShift(bitpos: nat)
    requires bitpos <= 56
    ensures ShiftLeft(1, bitpos + 7) <= 0x8000_0000_0000_0000
    decreases 56 - bitpos
  {
    if bitpos == 56 {
      Powers();
    } else {
      SmallShift(bitpos + 1);
    }
  }

  /** The tenth byte contributes a single bit. */
  lemma TopGroup(v: nat, c: nat)
    requires v < ShiftLeft(1, 63) && c < 128
    ensures Or(v, ShiftLeft(c, 63) % TWO_64) == (v + ShiftLeft(c, 63)) % TWO_64 < TWO_64
  {
    Powers();
    ShiftScale(c, 63);
    ShiftScale(c % 2, 63);
    TopBit(v, c);
    OrDisjoint(v, c % 2, 63);
  }

  lemma TopBit(v: nat, c: nat)
    requires v < 0x8000_0000_0000_0000
    ensures c * 0x8000_0000_0000_0000 % TWO_64 == (c % 2) * 0x8000_0000_0000_0000
    ensures (v + c * 0x8000_0000_0000_0000) % TWO_64 == v + (c % 2) * 0x8000_0000_0000_0000 < TWO_64
  {
    assert c * 0x8000_0000_0000_0000 == TWO_64 * (c / 2) + (c % 2) * 0x8000_0000_0000_0000;
  }
}
