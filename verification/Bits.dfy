/** Unsigned machine words as naturals, and their bits. */
module Bits {

  /** Bitwise OR of two naturals. */
  function Or(a: nat, b: nat): nat {
    if a == 0 then b
    else if b == 0 then a
    else 2 * Or(a / 2, b / 2) + (if a % 2 == 1 || b % 2 == 1 then 1 else 0)
  }

  /** Bitwise AND of two naturals. */
  function And(a: nat, b: nat): nat {
    if a == 0 || b == 0 then 0
    else 2 * And(a / 2, b / 2) + (if a % 2 == 1 && b % 2 == 1 then 1 else 0)
  }

  /** The complement of w as a word of n bits. */
  function Not(w: nat, n: nat): nat {
    if n == 0 then 0 else 2 * Not(w / 2, n - 1) + (1 - w % 2)
  }

  /** v shifted left by k bits, without truncation. */
  function ShiftLeft(v: nat, k: nat): nat {
    if k == 0 then v else 2 * ShiftLeft(v, k - 1)
  }

  /** OR is addition when the operands occupy different bit positions. */
  lemma {:induction false} OrDisjoint(a: nat, c: nat, k: nat)
    requires a < ShiftLeft(1, k)
    ensures Or(a, ShiftLeft(c, k)) == a + ShiftLeft(c, k)
  {
    if k != 0 {
      OrDisjoint(a / 2, c, k - 1);
    }
  }

  lemma {:induction false} ShiftLeftAdd(v: nat, w: nat, k: nat)
    ensures ShiftLeft(v + w, k) == ShiftLeft(v, k) + ShiftLeft(w, k)
  {
    if k != 0 {
      ShiftLeftAdd(v, w, k - 1);
    }
  }

  lemma {:induction false} ShiftLeftMonotone(v: nat, w: nat, k: nat)
    requires v <= w
    ensures ShiftLeft(v, k) <= ShiftLeft(w, k)
  {
    if k != 0 {
      ShiftLeftMonotone(v, w, k - 1);
    }
  }

  /** Seven more single-bit shifts multiply by 128, before or after. */
  lemma {:induction false} ShiftLeftGroup(v: nat, k: nat)
    ensures ShiftLeft(v, k + 7) == 128 * ShiftLeft(v, k) == ShiftLeft(128 * v, k)
  {
    assert ShiftLeft(v, k + 5) == 4 * ShiftLeft(v, k + 3);
    assert ShiftLeft(v, k + 3) == 4 * ShiftLeft(v, k + 1);
    if k != 0 {
      ShiftLeftGroup(v, k - 1);
    }
  }

  lemma {:induction false} ShiftScale(v: nat, k: nat)
    ensures ShiftLeft(v, k) == v * ShiftLeft(1, k)
  {
    if k != 0 {
      ShiftScale(v, k - 1);
    }
  }

  lemma {:induction false} ShiftCompose(j: nat, k: nat)
    ensures ShiftLeft(1, j + k) == ShiftLeft(1, j) * ShiftLeft(1, k)
  {
    if j != 0 {
      ShiftCompose(j - 1, k);
    }
  }

  /** The word sizes in use. */
  lemma Powers()
    ensures ShiftLeft(1, 7) == 0x80 && ShiftLeft(1, 8) == 0x100
    ensures ShiftLeft(1, 32) == 0x1_0000_0000
    ensures ShiftLeft(1, 63) == 0x8000_0000_0000_0000 && ShiftLeft(1, 64) == 0x1_0000_0000_0000_0000
    ensures ShiftLeft(1, 70) == 0x40_0000_0000_0000_0000
  {
    assert ShiftLeft(1, 4) == 16 && ShiftLeft(1, 6) == 64;
    ShiftCompose(4, 4);
    ShiftCompose(8, 8);
    ShiftCompose(16, 16);
    ShiftCompose(32, 32);
    ShiftCompose(6, 64);
    assert ShiftLeft(1, 8) == 2 * ShiftLeft(1, 7);
    assert ShiftLeft(1, 64) == 2 * ShiftLeft(1, 63);
  }

  /** Bit k of w. */
  predicate Bit(w: nat, k: nat) {
    if k == 0 then w % 2 == 1 else Bit(w / 2, k - 1)
  }

  /** The word with the low n bits set. */
  function Ones(n: nat): nat {
    if n == 0 then 0 else 1 + 2 * Ones(n - 1)
  }

  lemma {:induction false} ZeroBits(k: nat)
    ensures !Bit(0, k)
  {
    if k != 0 {
      ZeroBits(k - 1);
    }
  }

  lemma {:induction false} OrBits(a: nat, b: nat, k: nat)
    ensures Bit(Or(a, b), k) <==> Bit(a, k) || Bit(b, k)
  {
    if a == 0 || b == 0 {
      ZeroBits(k);
    } else if k != 0 {
      OrBits(a / 2, b / 2, k - 1);
    }
  }

  lemma {:induction false} AndBits(a: nat, b: nat, k: nat)
    ensures Bit(And(a, b), k) <==> Bit(a, k) && Bit(b, k)
  {
    if a == 0 || b == 0 {
      ZeroBits(k);
    } else if k != 0 {
      AndBits(a / 2, b / 2, k - 1);
    }
  }

  lemma {:induction false} NotBits(w: nat, n: nat, k: nat)
    ensures Bit(Not(w, n), k) <==> k < n && !Bit(w, k)
  {
    if n == 0 {
      ZeroBits(k);
    } else if k != 0 {
      NotBits(w / 2, n - 1, k - 1);
    }
  }

  /** A word and its complement add up to the word of ones. */
  lemma {:induction false} NotValue(w: nat, n: nat)
    requires w < ShiftLeft(1, n)
    ensures Not(w, n) == ShiftLeft(1, n) - 1 - w
  {
    if n != 0 {
      NotValue(w / 2, n - 1);
    }
  }

  lemma {:induction false} OrBound(a: nat, b: nat, n: nat)
    requires a < ShiftLeft(1, n) && b < ShiftLeft(1, n)
    ensures Or(a, b) < ShiftLeft(1, n)
  {
    if a != 0 && b != 0 {
      OrBound(a / 2, b / 2, n - 1);
    }
  }

  lemma {:induction false} ShiftLeftBits(v: nat, n: nat, k: nat)
    ensures Bit(ShiftLeft(v, n), k) <==> k >= n && Bit(v, k - n)
  {
    if n != 0 && k != 0 {
      ShiftLeftBits(v, n - 1, k - 1);
    }
  }

  lemma {:induction false} SingleBit(n: nat, k: nat)
    ensures Bit(ShiftLeft(1, n), k) <==> k == n
  {
    ShiftLeftBits(1, n, k);
    if k > n {
      assert Bit(1, k - n) == Bit(0, k - n - 1);
      ZeroBits(k - n - 1);
    }
  }

  lemma {:induction false} OnesBits(n: nat, k: nat)
    ensures Bit(Ones(n), k) <==> k < n
    ensures Ones(n) < ShiftLeft(1, n)
  {
    if n == 0 {
      ZeroBits(k);
    } else {
      OnesBits(n - 1, if k == 0 then 0 else k - 1);
    }
  }

  /** One bit below n, less one, is every bit below n. */
  lemma {:induction false} OnesValue(n: nat)
    ensures Ones(n) == ShiftLeft(1, n) - 1
  {
    if n != 0 {
      OnesValue(n - 1);
    }
  }

  /** Truncation to n bits keeps exactly the bits below n. */
  lemma {:induction false} TruncateBits(w: nat, n: nat, k: nat)
    ensures ShiftLeft(1, n) > 0
    ensures Bit(w % ShiftLeft(1, n), k) <==> k < n && Bit(w, k)
  {
    if n == 0 {
      ZeroBits(k);
    } else {
      ShiftLeftPositive(n);
      HalveModulo(w, ShiftLeft(1, n - 1));
      if k != 0 {
        TruncateBits(w / 2, n - 1, k - 1);
      }
    }
  }

  lemma {:induction false} ShiftLeftPositive(n: nat)
    ensures ShiftLeft(1, n) > 0
  {
    if n != 0 {
      ShiftLeftPositive(n - 1);
    }
  }

  lemma {:induction false} PowerMonotone(n: nat, m: nat)
    requires n <= m
    ensures ShiftLeft(1, n) <= ShiftLeft(1, m)
    decreases m
  {
    ShiftLeftPositive(m);
    if n < m {
      ShiftLeftPositive(m - 1);
      PowerMonotone(n, m - 1);
    }
  }

  lemma HalveModulo(w: nat, p: nat)
    requires p > 0
    ensures w % (2 * p) == 2 * (w / 2 % p) + w % 2
  {
    var q, r := w / 2 / p, w / 2 % p;
    assert w / 2 == q * p + r;
    assert w == (2 * p) * q + (2 * r + w % 2);
    ModuloUnique(w, 2 * p, q, 2 * r + w % 2);
  }

  lemma ModuloUnique(w: nat, m: nat, q: nat, r: nat)
    requires r < m && w == m * q + r
    ensures w % m == r
  {
    var d := q - w / m;
    assert m * d == w % m - r;
    AtLeastOnce(m, if d >= 1 then d else 1);
    AtLeastOnce(m, if d <= -1 then -d else 1);
  }

  lemma AtLeastOnce(m: nat, d: nat)
    requires d >= 1
    ensures m * d >= m
  {
  }

  /** Words of n bits are equal when their bits are. */
  lemma {:induction false} SameBits(a: nat, b: nat, n: nat)
    requires a < ShiftLeft(1, n) && b < ShiftLeft(1, n)
    requires forall k: nat | k < n :: Bit(a, k) <==> Bit(b, k)
    ensures a == b
  {
    if n != 0 {
      assert Bit(a, 0) <==> Bit(b, 0);
      forall k: nat | k < n - 1 ensures Bit(a / 2, k) <==> Bit(b / 2, k) {
        assert Bit(a, k + 1) <==> Bit(b, k + 1);
      }
      SameBits(a / 2, b / 2, n - 1);
    }
  }

  /** A word of n bits has no bit beyond them. */
  lemma {:induction false} NoHighBits(w: nat, n: nat, k: nat)
    requires w < ShiftLeft(1, n) && k >= n
    ensures !Bit(w, k)
  {
    if n == 0 {
      ZeroBits(k);
    } else {
      NoHighBits(w / 2, n - 1, k - 1);
    }
  }
}
