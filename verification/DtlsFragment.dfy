/** DTLS handshake messages on the wire, and the reassembly of one message from its fragments. */
module DtlsFragment {
  import opened Bits
  import opened Bytes

  const HEADER_LENGTH := 12  // DTLS1_HM_HEADER_LENGTH
  const MAX_BODY := 0x100_0000
  const FLIGHT := 7          // SSL_MAX_HANDSHAKE_FLIGHT

  datatype Header = Header(typ: byte, msgLen: nat, seqNo: nat, fragOff: nat, fragLen: nat)

  function U16(n: nat): (bs: seq<byte>)
    requires n < TWO_16
    ensures |bs| == 2
  {
    [n / 256, n % 256]
  }

  function U24(n: nat): (bs: seq<byte>)
    requires n < MAX_BODY
    ensures |bs| == 3
  {
    [n / 65536, n / 256 % 256, n % 256]
  }

  function FromBigEndian(bs: seq<byte>): nat {
    if bs == [] then 0 else 256 * FromBigEndian(bs[..|bs| - 1]) + bs[|bs| - 1]
  }

  predicate HeaderFits(h: Header) {
    h.msgLen < MAX_BODY && h.seqNo < TWO_16 && h.fragOff < MAX_BODY && h.fragLen < MAX_BODY
  }

  /** The twelve header bytes. */
  function HeaderBytes(h: Header): (bs: seq<byte>)
    requires HeaderFits(h)
    ensures |bs| == HEADER_LENGTH
  {
    [h.typ] + U24(h.msgLen) + U16(h.seqNo) + U24(h.fragOff) + U24(h.fragLen)
  }

  lemma ParsedHeaderFits(bs: seq<byte>)
    requires |bs| >= HEADER_LENGTH
    ensures FromBigEndian(bs[1..4]) < MAX_BODY && FromBigEndian(bs[4..6]) < TWO_16
    ensures FromBigEndian(bs[6..9]) < MAX_BODY && FromBigEndian(bs[9..12]) < MAX_BODY
  {
    BigEndian3(bs[1], bs[2], bs[3]);
    BigEndian2(bs[4], bs[5]);
    BigEndian3(bs[6], bs[7], bs[8]);
    BigEndian3(bs[9], bs[10], bs[11]);
    assert bs[1..4] == [bs[1], bs[2], bs[3]] && bs[4..6] == [bs[4], bs[5]];
    assert bs[6..9] == [bs[6], bs[7], bs[8]] && bs[9..12] == [bs[9], bs[10], bs[11]];
  }

  /** dtls1_parse_fragment: a header and as many body bytes as it announces. */
  function ParseFragment(bs: seq<byte>): (p: Parse<(Header, seq<byte>)>)
    ensures p.Got? ==> p.n == HEADER_LENGTH + p.val.0.fragLen <= |bs| && |p.val.1| == p.val.0.fragLen
    ensures p.Got? ==> HeaderFits(p.val.0)
  {
    if |bs| < HEADER_LENGTH then Fail
    else
      ParsedHeaderFits(bs);
      var h := Header(bs[0], FromBigEndian(bs[1..4]), FromBigEndian(bs[4..6]), FromBigEndian(bs[6..9]),
                      FromBigEndian(bs[9..12]));
      if |bs| - HEADER_LENGTH < h.fragLen then Fail
      else Got((h, bs[HEADER_LENGTH..HEADER_LENGTH + h.fragLen]), HEADER_LENGTH + h.fragLen)
  }

  lemma BigEndian2(a: byte, b: byte)
    ensures FromBigEndian([a, b]) == 256 * a + b
  {
    assert [a, b][..1] == [a] && [a][..0] == [];
    assert FromBigEndian([a]) == a;
  }

  lemma BigEndian3(a: byte, b: byte, c: byte)
    ensures FromBigEndian([a, b, c]) == 65536 * a + 256 * b + c
  {
    assert [a, b, c][..2] == [a, b];
    BigEndian2(a, b);
  }

  lemma BigEndianRoundTrip(n: nat)
    ensures n < TWO_16 ==> FromBigEndian(U16(n)) == n
    ensures n < MAX_BODY ==> FromBigEndian(U24(n)) == n
  {
    if n < MAX_BODY {
      BigEndian3(n / 65536, n / 256 % 256, n % 256);
    }
    if n < TWO_16 {
      BigEndian2(n / 256, n % 256);
    }
  }

  /** Parsing inverts writing, whatever follows the fragment. */
  lemma ParseRoundTrip(h: Header, body: seq<byte>, tail: seq<byte>)
    requires HeaderFits(h) && |body| == h.fragLen
    ensures ParseFragment(HeaderBytes(h) + body + tail) == Got((h, body), HEADER_LENGTH + |body|)
  {
    var bs := HeaderBytes(h) + body + tail;
    assert bs[1..4] == U24(h.msgLen) && bs[4..6] == U16(h.seqNo) && bs[6..9] == U24(h.fragOff);
    assert bs[9..12] == U24(h.fragLen) && bs[12..12 + |body|] == body;
    BigEndianRoundTrip(h.msgLen);
    BigEndianRoundTrip(h.seqNo);
    BigEndianRoundTrip(h.fragOff);
    BigEndianRoundTrip(h.fragLen);
  }

  // ----- Reassembly -----

  /** bit_range: the bits start up to end, as a mask of 32 bits cut to a byte. */
  function BitRange(start: nat, end: nat): nat {
    ShiftLeftPositive(start);
    ShiftLeftPositive(end);
    And(Not(ShiftLeft(1, start) - 1, 32), ShiftLeft(1, end) - 1) % 256
  }

  lemma BitRangeBits(start: nat, end: nat)
    requires start <= end <= 8
    ensures forall b: nat :: Bit(BitRange(start, end), b) <==> start <= b < end
    ensures BitRange(start, end) < 256
  {
    var low, high := Ones(start), Ones(end);
    OnesValue(start);
    OnesValue(end);
    assert ShiftLeft(1, 8) == 256 by { assert ShiftLeft(1, 4) == 16; }
    forall b: nat ensures Bit(BitRange(start, end), b) <==> start <= b < end {
      TruncateBits(And(Not(low, 32), high), 8, b);
      AndBits(Not(low, 32), high, b);
      NotBits(low, 32, b);
      OnesBits(start, b);
      OnesBits(end, b);
    }
  }

  /** Position k of a message is marked in the mask. */
  predicate Marked(mask: seq<byte>, k: nat)
    requires k < 8 * |mask|
  {
    Bit(mask[k / 8], k % 8)
  }

  /** What has arrived of a message: the bytes received so far, by position. */
  datatype Partial = Partial(typ: byte, seqNo: nat, msgLen: nat, got: map<nat, byte>)

  predicate Within(k: nat, start: nat, end: nat) {
    start <= k < end
  }

  function Positions(start: nat, end: nat): (r: set<nat>)
    ensures forall k: nat :: k in r <==> start <= k < end
  {
    set k: nat | 0 <= k < end && Within(k, start, end)
  }

  predicate Complete(p: Partial) {
    p.got.Keys == Positions(0, p.msgLen)
  }

  /** The bytes of a fragment, by position in the message. */
  function At(off: nat, body: seq<byte>): map<nat, byte> {
    map k | k in Positions(off, off + |body|) :: From(body, off, k)
  }

  function From(body: seq<byte>, off: nat, k: nat): byte
    requires off <= k < off + |body|
  {
    body[k - off]
  }

  /** A message under reassembly: `reassembly` is null once every byte has arrived. */
  class HmFragment {
    const typ: byte
    const seqNo: nat
    const msgLen: nat
    const data: array<byte>
    var reassembly: array?<byte>
    ghost const footprint: set<object>  // the fragment, its data and the mask it was created with

    /** The mask has a byte for every eight positions, no bit beyond the message, and a position still missing. */
    ghost predicate Valid()
      reads this, footprint
    {
      && this in footprint && data in footprint && (reassembly != null ==> reassembly in footprint)
      && data.Length == HEADER_LENGTH + msgLen
      && msgLen < MAX_BODY && seqNo < TWO_16
      && data[..HEADER_LENGTH] == HeaderBytes(Header(typ, msgLen, seqNo, 0, msgLen))
      && (reassembly != null ==>
            && reassembly != data
            && reassembly.Length == (msgLen + 7) / 8
            && (forall k: nat | k < 8 * reassembly.Length && Marked(reassembly[..], k) :: k < msgLen)
            && (exists k: nat | k < msgLen :: !Marked(reassembly[..], k)))
    }

    /** The positions received so far. */
    ghost function Received(): (r: set<nat>)
      requires Valid()
      reads this, footprint
    {
      set k: nat | k < msgLen && (reassembly == null || Marked(reassembly[..], k))
    }

    ghost function View(): Partial
      requires Valid()
      reads this, footprint
    {
      Partial(typ, seqNo, msgLen, map k | k in Received() :: data[HEADER_LENGTH + k])
    }

    /** dtls1_hm_fragment_new: the header of the whole message is filled in; an empty message is complete at once. */
    constructor (h: Header)
      requires HeaderFits(h)
      ensures Valid() && typ == h.typ && seqNo == h.seqNo && msgLen == h.msgLen
      ensures View() == Partial(h.typ, h.seqNo, h.msgLen, map[])
      ensures fresh(footprint) && this in footprint
      ensures reassembly == null <==> msgLen == 0
    {
      typ, seqNo, msgLen := h.typ, h.seqNo, h.msgLen;
      var header := HeaderBytes(Header(h.typ, h.msgLen, h.seqNo, 0, h.msgLen));
      var buffer := new byte[HEADER_LENGTH + h.msgLen](i => if 0 <= i < HEADER_LENGTH then header[i] else 0);
      data := buffer;
      if h.msgLen > 0 {
        var mask := new byte[(h.msgLen + 7) / 8](_ => 0);
        reassembly := mask;
        footprint := {this, buffer, mask};
      } else {
        reassembly := null;
        footprint := {this, buffer};
      }
      new;
      assert data[..HEADER_LENGTH] == header;
      if reassembly != null {
        forall k: nat | k < 8 * reassembly.Length ensures !Marked(reassembly[..], k) {
          ZeroBits(k % 8);
        }
        assert !Marked(reassembly[..], 0);
      }
      assert Received() == {};
    }

    /** One byte of the mask takes the bits of a range. */
    method MarkByte(i: nat, start: nat, end: nat)
      requires reassembly != null && i < reassembly.Length && start <= end <= 8
      modifies reassembly
      ensures forall b: nat | b < 8 :: Bit(reassembly[i], b) <==> Bit(old(reassembly[i]), b) || start <= b < end
      ensures forall j: nat | j < reassembly.Length && j != i :: reassembly[j] == old(reassembly[j])
    {
      BitRangeBits(start, end);
      forall b: nat ensures Bit(Or(reassembly[i], BitRange(start, end)), b)
                            <==> Bit(reassembly[i], b) || Bit(BitRange(start, end), b) {
        OrBits(reassembly[i], BitRange(start, end), b);
      }
      assert ShiftLeft(1, 8) == 256 by { assert ShiftLeft(1, 4) == 16; }
      OrBound(reassembly[i], BitRange(start, end), 8);
      reassembly[i] := Or(reassembly[i], BitRange(start, end));
    }

    /** The marking part of dtls1_hm_fragment_mark: whole bytes in the middle, bit ranges at the ends. */
    method MarkRange(start: nat, end: nat)
      requires reassembly != null && start < end <= 8 * reassembly.Length
      modifies reassembly
      ensures forall k: nat | k < 8 * reassembly.Length ::
                Marked(reassembly[..], k) <==> old(Marked(reassembly[..], k)) || start <= k < end
    {
      ghost var was := reassembly[..];
      if start / 8 == end / 8 {
        MarkByte(start / 8, start % 8, end % 8);
      } else {
        MarkByte(start / 8, start % 8, 8);
        for i := start / 8 + 1 to end / 8
          invariant forall j: nat | j < reassembly.Length && j != start / 8 && !(start / 8 < j < i) ::
                      reassembly[j] == was[j]
          invariant forall b: nat | b < 8 :: Bit(reassembly[start / 8], b) <==> Bit(was[start / 8], b) || start % 8 <= b
          invariant forall j: nat | start / 8 < j < i :: reassembly[j] == 0xff
        {
          reassembly[i] := 0xff;
        }
        if end % 8 != 0 {
          MarkByte(end / 8, 0, end % 8);
        }
      }
      forall k: nat | k < 8 * reassembly.Length
        ensures Marked(reassembly[..], k) <==> Marked(was, k) || start <= k < end
      {
        FullByte(k % 8);
      }
    }

    /** The completeness check of dtls1_hm_fragment_mark: whole bytes first, then the bits left over. */
    method IsFull() returns (full: bool)
      requires reassembly != null && reassembly.Length == (msgLen + 7) / 8
      requires forall k: nat | k < 8 * reassembly.Length && Marked(reassembly[..], k) :: k < msgLen
      ensures full <==> forall k: nat | k < msgLen :: Marked(reassembly[..], k)
    {
      hide BitRange, Bit;
      for i := 0 to msgLen / 8
        invariant forall j: nat | j < i :: reassembly[j] == 0xff
      {
        if reassembly[i] != 0xff {
          ghost var b := MissingBit(reassembly[i]);
          assert !Marked(reassembly[..], 8 * i + b);
          return false;
        }
      }
      if msgLen % 8 != 0 {
        BitRangeBits(0, msgLen % 8);
        if reassembly[msgLen / 8] != BitRange(0, msgLen % 8) {
          ghost var b := DifferentBit(reassembly[msgLen / 8], BitRange(0, msgLen % 8));
          assert Marked(reassembly[..], msgLen / 8 * 8 + b) <==> Bit(reassembly[msgLen / 8], b);
          return false;
        }
      }
      forall k: nat | k < msgLen ensures Marked(reassembly[..], k) {
        FullByte(k % 8);
      }
      return true;
    }

    /** dtls1_hm_fragment_mark. */
    method Mark(start: nat, end: nat)
      requires Valid() && reassembly != null && start <= end <= msgLen
      modifies this, reassembly
      ensures Valid()
      ensures Received() == old(Received()) + Positions(start, end)
      ensures reassembly == null <==> Received() == Positions(0, msgLen)
      ensures reassembly == null || reassembly == old(reassembly)
    {
      assert data[..HEADER_LENGTH] == old(data[..HEADER_LENGTH]);
      ghost var k0: nat :| k0 < msgLen && !Marked(reassembly[..], k0);
      assert k0 !in Received();
      if start == end {
        assert Received() + Positions(start, end) == Received();
        return;
      }
      MarkRange(start, end);
      var full := IsFull();
      ghost var now := set k: nat | k < msgLen && Marked(reassembly[..], k);
      assert now == old(Received()) + Positions(start, end);
      if full {
        reassembly := null;
      } else {
        ghost var k: nat :| k < msgLen && !Marked(reassembly[..], k);
        assert k !in now;
      }
    }

    method CopyBody(off: nat, body: seq<byte>)
      requires data.Length == HEADER_LENGTH + msgLen && off + |body| <= msgLen
      modifies data
      ensures forall j | 0 <= j < data.Length ::
                data[j] == if 0 <= j - HEADER_LENGTH - off < |body| then body[j - HEADER_LENGTH - off] else old(data[j])
    {
      for i := 0 to |body|
        invariant forall j | 0 <= j < data.Length ::
                    data[j] == if 0 <= j - HEADER_LENGTH - off < i then body[j - HEADER_LENGTH - off] else old(data[j])
      {
        data[HEADER_LENGTH + off + i] := body[i];
      }
    }

    /** A fragment's body copied into place and marked, in dtls1_open_handshake. */
    method Accept(off: nat, body: seq<byte>)
      requires Valid() && reassembly != null && off + |body| <= msgLen
      modifies footprint
      ensures Valid()
      ensures View() == old(View()).(got := old(View()).got + At(off, body))
      ensures reassembly == null <==> Complete(View())
      ensures reassembly == null || reassembly == old(reassembly)
    {
      ghost var was := View().got;
      CopyBody(off, body);
      assert data[..HEADER_LENGTH] == old(data[..HEADER_LENGTH]);
      assert Received() == old(Received());
      label L:
      Mark(off, off + |body|);
      assert data[..] == old@L(data[..]);
      assert Received() == was.Keys + Positions(off, off + |body|);
      ghost var now := View().got;
      forall k | k in Received() ensures now[k] == (was + At(off, body))[k] {
        assert now[k] == data[HEADER_LENGTH + k];
      }
      assert now == was + At(off, body);
    }
  }

  lemma FullByte(b: nat)
    requires b < 8
    ensures Bit(0xff, b)
  {
    assert Ones(8) == 0xff by { assert Ones(4) == 15; }
    OnesBits(8, b);
  }

  lemma DifferentBit(w: byte, v: byte) returns (b: nat)
    requires w != v
    ensures b < 8 && (Bit(w, b) <==> !Bit(v, b))
  {
    if forall b: nat | b < 8 :: Bit(w, b) <==> Bit(v, b) {
      assert ShiftLeft(1, 8) == 256 by { assert ShiftLeft(1, 4) == 16; }
      SameBits(w, v, 8);
    }
    b :| b < 8 && !(Bit(w, b) <==> Bit(v, b));
  }

  lemma MissingBit(w: byte) returns (b: nat)
    requires w != 0xff
    ensures b < 8 && !Bit(w, b)
  {
    b := DifferentBit(w, 0xff);
    FullByte(b);
  }
}
