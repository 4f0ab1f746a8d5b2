/** The choice of the RSA premaster secret, which must not show in its timing whether the padding was right. */
module Premaster {
  const PREMASTER_LEN := 48  // SSL_MAX_MASTER_KEY_LENGTH

  // ----- Constant-time arithmetic on machine words -----

  const TRUE_W: bv64 := 0xffff_ffff_ffff_ffff
  const TRUE_8: bv8 := 0xff

  /** constant_time_msb_w: the top bit in every place. */
  function Msb(a: bv64): (r: bv64)
    ensures r == if a >= 0x8000_0000_0000_0000 then TRUE_W else 0
  {
    0 - (a >> 63)
  }

  /** constant_time_lt_w. */
  function Lt(a: bv64, b: bv64): (r: bv64)
    ensures r == if a < b then TRUE_W else 0
  {
    LtTop(a, b);
    Msb(a ^ ((a ^ b) | ((a - b) ^ a)))
  }

  lemma LtTop(a: bv64, b: bv64)
    ensures ((a ^ ((a ^ b) | ((a - b) ^ a))) >= 0x8000_0000_0000_0000) == (a < b)
  {
  }

  /** constant_time_is_zero_w. */
  function IsZero(a: bv64): (r: bv64)
    ensures r == if a == 0 then TRUE_W else 0
  {
    Msb(!a & (a - 1))
  }

  /** constant_time_eq_w. */
  function Eq(a: bv64, b: bv64): (r: bv64)
    ensures r == if a == b then TRUE_W else 0
  {
    IsZero(a ^ b)
  }

  /** A word cut to eight bits. */
  function Low8(w: bv64): bv8 {
    (w & 0xff) as bv8
  }

  /** constant_time_is_zero_8. */
  function IsZero8(a: bv8): (r: bv8)
    ensures r == if a == 0 then TRUE_8 else 0
  {
    Low8(IsZero(a as bv64))
  }

  /** constant_time_eq_8. */
  function Eq8(a: bv8, b: bv8): (r: bv8)
    ensures r == if a == b then TRUE_8 else 0
  {
    Low8(Eq(a as bv64, b as bv64))
  }

  /** constant_time_select_8. */
  function Select8(mask: bv8, a: bv8, b: bv8): (r: bv8)
    ensures mask == TRUE_8 ==> r == a
    ensures mask == 0 ==> r == b
  {
    Low8((mask as bv64 & a as bv64) | (!(mask as bv64) & b as bv64))
  }

  // ----- The premaster secret -----

  /** The padding of section 7.2.2 of RFC 3447 in front of a message that takes the last PREMASTER_LEN bytes. */
  predicate Padded(buf: seq<bv8>)
    requires |buf| >= 11 + PREMASTER_LEN
  {
    var n := |buf| - PREMASTER_LEN;
    && buf[0] == 0 && buf[1] == 2
    && (forall i | 2 <= i < n - 1 :: buf[i] != 0)
    && buf[n - 1] == 0
  }

  predicate HasVersion(buf: seq<bv8>, major: bv8, minor: bv8)
    requires |buf| >= PREMASTER_LEN
  {
    buf[|buf| - PREMASTER_LEN] == major && buf[|buf| - PREMASTER_LEN + 1] == minor
  }

  /** The padding and version checks, without a branch on what they find. */
  method Check(buf: seq<bv8>, major: bv8, minor: bv8) returns (good: bv8)
    requires |buf| >= 11 + PREMASTER_LEN
    ensures good == if Padded(buf) && HasVersion(buf, major, minor) then TRUE_8 else 0
  {
    var n := |buf| - PREMASTER_LEN;
    good := Eq8(buf[0], 0) & Eq8(buf[1], 2);
    for i := 2 to n - 1
      invariant good == if buf[0] == 0 && buf[1] == 2 && (forall j | 2 <= j < i :: buf[j] != 0) then TRUE_8 else 0
    {
      good := good & !IsZero8(buf[i]);
    }
    good := good & IsZero8(buf[n - 1]);
    good := good & Eq8(buf[n], major);
    good := good & Eq8(buf[n + 1], minor);
  }

  /** The premaster secret after decryption, in do_read_client_key_exchange; it starts out random. A buffer too short
      for any padding is refused, which depends on the key alone. */
  method Choose(buf: seq<bv8>, major: bv8, minor: bv8, premaster: array<bv8>) returns (ok: bool)
    requires premaster.Length == PREMASTER_LEN
    modifies premaster
    ensures ok <==> |buf| >= 11 + PREMASTER_LEN
    ensures !ok ==> premaster[..] == old(premaster[..])
    ensures ok ==> premaster[..] == if Padded(buf) && HasVersion(buf, major, minor) then buf[|buf| - PREMASTER_LEN..]
                                    else old(premaster[..])
  {
    if |buf| < 11 + PREMASTER_LEN {
      return false;
    }
    var n := |buf| - PREMASTER_LEN;
    var good := Check(buf, major, minor);
    for i := 0 to PREMASTER_LEN
      invariant forall j | 0 <= j < i :: premaster[j] == if good == TRUE_8 then buf[n + j] else old(premaster[j])
      invariant forall j | i <= j < PREMASTER_LEN :: premaster[j] == old(premaster[j])
    {
      premaster[i] := Select8(good, buf[n + i], premaster[i]);
    }
    return true;
  }
}
