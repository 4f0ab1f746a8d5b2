/** Bytes, parse results and the fixed-width integer arithmetic of C that every component shares. */
module Bytes {
  import opened Bits

  type byte = x: int | 0 <= x < 256

  const TWO_8: int := 0x100
  const TWO_16: int := 0x1_0000
  const TWO_32: int := 0x1_0000_0000
  const TWO_64: int := 0x1_0000_0000_0000_0000

  datatype Option<+T> = None | Some(value: T)

  /** The outcome of reading a value off the front of a byte sequence: the value and the bytes consumed. */
  datatype Parse<+T> = Fail | Got(val: T, n: nat)

  predicate IntegerWidth(width: nat) {
    width == 1 || width == 2 || width == 4 || width == 8
  }

  /** Half the number of values of a C integer of the given width in bytes. */
  function Half(width: nat): (h: int)
    ensures h > 0
  {
    if width == 1 then 0x80 else if width == 2 then 0x8000 else if width == 4 then 0x8000_0000 else 0x8000_0000_0000_0000
  }

  function Modulus(width: nat): (m: int)
    ensures m > 0
  {
    2 * Half(width)
  }

  predicate InSigned(n: int, width: nat) {
    -Half(width) <= n < Half(width)
  }

  predicate InUnsigned(n: int, width: nat) {
    0 <= n < Modulus(width)
  }

  /** The two's complement reading of v at the given width: what a C cast to the signed type yields. */
  function ToSigned(v: int, width: nat): (s: int)
    ensures InSigned(s, width)
  {
    var r := v % Modulus(width);
    if r < Half(width) then r else r - Modulus(width)
  }

  /** A cast to a signed type keeps exactly the values the type can hold. */
  lemma SignedCastIdentity(v: int, width: nat)
    requires IntegerWidth(width)
    ensures ToSigned(v, width) == v <==> InSigned(v, width)
  {
    if InSigned(v, width) && v < 0 {
      assert (v + Modulus(width)) % Modulus(width) == v + Modulus(width);
    }
  }

  /** Casting to unsigned 64 bits and back through a signed width of at most 64 bits loses nothing. */
  lemma SignedThrough64(v: int, width: nat)
    requires width == 4 || width == 8
    requires InSigned(v, width)
    ensures ToSigned(v % TWO_64, width) == v
  {
    SignedCastIdentity(v, width);
    if v < 0 {
      assert v % TWO_64 == v + TWO_64;
      assert (v + TWO_64) % TWO_32 == v + TWO_32 || width == 8;
    }
  }

  /** The little-endian bytes of an unsigned integer. */
  function LittleEndian(n: nat, width: nat): (bs: seq<byte>)
    ensures |bs| == width
  {
    if width == 0 then [] else [n % 256] + LittleEndian(n / 256, width - 1)
  }

  function FromLittleEndian(bs: seq<byte>): nat {
    if bs == [] then 0 else bs[0] + 256 * FromLittleEndian(bs[1..])
  }

  lemma {:induction false} LittleEndianRoundTrip(n: nat, width: nat)
    requires n < ShiftLeft(1, 8 * width)
    ensures FromLittleEndian(LittleEndian(n, width)) == n
  {
    if width != 0 {
      assert ShiftLeft(1, 8 * width - 4) == 16 * ShiftLeft(1, 8 * width - 8) by {
        assert ShiftLeft(1, 8 * width - 6) == 4 * ShiftLeft(1, 8 * width - 8);
      }
      assert ShiftLeft(1, 8 * width) == 16 * ShiftLeft(1, 8 * width - 4) by {
        assert ShiftLeft(1, 8 * width - 2) == 4 * ShiftLeft(1, 8 * width - 4);
      }
      LittleEndianRoundTrip(n / 256, width - 1);
    }
  }

  lemma ByteDown(n: nat, k: nat)
    ensures Bit(n / 256, k) <==> Bit(n, k + 8)
  {
    assert Bit(n, k + 8) <==> Bit(n / 2 / 2, k + 6);
    assert Bit(n / 4, k + 6) <==> Bit(n / 4 / 2 / 2, k + 4);
    assert Bit(n / 16, k + 4) <==> Bit(n / 16 / 2 / 2, k + 2);
    assert Bit(n / 64, k + 2) <==> Bit(n / 64 / 2 / 2, k);
  }

  /** The low byte comes first: byte i holds the bits from 8 * i on. */
  lemma {:induction false} LittleEndianBits(n: nat, width: nat, i: nat, j: nat)
    requires i < width && j < 8
    ensures Bit(LittleEndian(n, width)[i], j) <==> Bit(n, 8 * i + j)
  {
    if i == 0 {
      Powers();
      TruncateBits(n, 8, j);
    } else {
      LittleEndianBits(n / 256, width - 1, i - 1, j);
      ByteDown(n, 8 * (i - 1) + j);
    }
  }
}
