/** Bitwise operations on natural numbers of any width.

    The programs modelled here shift, mask and combine octets, 64-bit masks and
    packed identifiers of arbitrary length.  All of those are naturals with the
    same bits; an operation that truncates (a byte shift, say) is written with an
    explicit remainder.  Each operation is characterised by the bits of its result. */
module Bits {
  type Byte = x: int | 0 <= x < 256

  /** Bit k of a, counting from the least significant. */
  predicate Bit(a: nat, k: nat)
    decreases k
  {
    if k == 0 then a % 2 == 1 else Bit(a / 2, k - 1)
  }

  /** a << n, without truncation. */
  function Shl(a: nat, n: nat): nat {
    if n == 0 then a else 2 * Shl(a, n - 1)
  }

  /** a >> n. */
  function Shr(a: nat, n: nat): nat {
    if n == 0 then a else Shr(a / 2, n - 1)
  }

  /** a | b. */
  function Or(a: nat, b: nat): nat
    decreases a + b
  {
    if a == 0 then b
    else if b == 0 then a
    else (if a % 2 == 1 || b % 2 == 1 then 1 else 0) + 2 * Or(a / 2, b / 2)
  }

  /** The n least significant bits of a. */
  function Low(a: nat, n: nat): nat
    decreases n
  {
    if n == 0 then 0 else a % 2 + 2 * Low(a / 2, n - 1)
  }

  /** The number whose bit k is f(k) for every k below n, and clear above. */
  function FromBits(n: nat, f: nat -> bool): nat {
    if n == 0 then 0
    else (if f(0) then 1 else 0) + 2 * FromBits(n - 1, (k: nat) => f(k + 1))
  }

  lemma {:induction false} BitOfZero(k: nat)
    ensures !Bit(0, k)
    decreases k
  {
    if k > 0 { BitOfZero(k - 1); }
  }

  lemma {:induction false} BitOfShl(a: nat, n: nat, k: nat)
    ensures Bit(Shl(a, n), k) == (k >= n && Bit(a, k - n))
    decreases n
  {
    if n > 0 && k > 0 {
      BitOfShl(a, n - 1, k - 1);
    }
  }

  lemma {:induction false} BitOfShr(a: nat, n: nat, k: nat)
    ensures Bit(Shr(a, n), k) == Bit(a, n + k)
    decreases n
  {
    if n > 0 { BitOfShr(a / 2, n - 1, k); }
  }

  lemma {:induction false} BitOfOr(a: nat, b: nat, k: nat)
    ensures Bit(Or(a, b), k) == (Bit(a, k) || Bit(b, k))
    decreases k
  {
    if a == 0 || b == 0 {
      BitOfZero(k);
    } else if k > 0 {
      BitOfOr(a / 2, b / 2, k - 1);
    }
  }

  lemma {:induction false} BitOfLow(a: nat, n: nat, k: nat)
    ensures Bit(Low(a, n), k) == (k < n && Bit(a, k))
    decreases n
  {
    if n == 0 {
      BitOfZero(k);
    } else if k > 0 {
      BitOfLow(a / 2, n - 1, k - 1);
    }
  }

  lemma {:induction false} LowAndHigh(a: nat, n: nat)
    ensures a == Low(a, n) + Shl(Shr(a, n), n) && Low(a, n) < Shl(1, n)
    decreases n
  {
    if n > 0 { LowAndHigh(a / 2, n - 1); }
  }

  lemma {:induction false} ShlIsTimes(a: nat, n: nat)
    ensures Shl(a, n) == a * Shl(1, n)
  {
    if n > 0 {
      ShlIsTimes(a, n - 1);
      var m := Shl(1, n - 1);
      assert 2 * (a * m) == a * (2 * m);
    }
  }

  /** Keeping n bits is the remainder by 2^n. */
  lemma LowIsRemainder(a: nat, n: nat, m: nat)
    requires m == Shl(1, n)
    ensures m > 0 && Low(a, n) == a % m && Shr(a, n) == a / m
  {
    LowAndHigh(a, n);
    var q, r := Shr(a, n), Low(a, n);
    ShlIsTimes(q, n);
    assert a == q * m + r && 0 <= r < m;
    DivModUnique(a, m, q, r);
  }

  lemma DivModUnique(a: nat, m: nat, q: nat, r: nat)
    requires m > 0 && a == q * m + r && r < m
    ensures a / m == q && a % m == r
  {
    QuotientUnique(m, a / m, a % m, q, r);
  }

  lemma QuotientUnique(m: nat, q0: int, r0: nat, q1: int, r1: nat)
    requires m > 0 && q0 * m + r0 == q1 * m + r1 && r0 < m && r1 < m
    ensures q0 == q1 && r0 == r1
  {
    MultipleOutOfRange(q0 - q1, m);
  }

  lemma MultipleOutOfRange(d: int, m: nat)
    ensures d >= 1 ==> d * m >= m
    ensures d <= -1 ==> d * m + m <= 0
  {
    if d >= 1 {
      assert d * m == (d - 1) * m + m;
    } else if d <= -1 {
      assert d * m == (d + 1) * m - m;
    }
  }

  lemma LowOctet(a: nat)
    ensures Low(a, 8) == a % 256
    ensures Low(a, 7) == a % 128
  {
    assert Shl(1, 8) == 256 && Shl(1, 7) == 128;
    LowIsRemainder(a, 8, 256);
    LowIsRemainder(a, 7, 128);
  }

  /** Truncation to an octet keeps exactly the bits below 8. */
  lemma BitOfOctet(a: nat, k: nat)
    ensures Bit(a % 256, k) == (k < 8 && Bit(a, k))
  {
    LowOctet(a);
    BitOfLow(a, 8, k);
  }

  /** Masking with 0x7f keeps exactly the bits below 7. */
  lemma BitOfSeptet(a: nat, k: nat)
    ensures Bit(a % 128, k) == (k < 7 && Bit(a, k))
  {
    LowOctet(a);
    BitOfLow(a, 7, k);
  }

  lemma {:induction false} BitOfFromBits(n: nat, f: nat -> bool, k: nat)
    ensures Bit(FromBits(n, f), k) == (k < n && f(k))
    decreases n
  {
    if n == 0 {
      BitOfZero(k);
    } else if k > 0 {
      BitOfFromBits(n - 1, (j: nat) => f(j + 1), k - 1);
    }
  }

  lemma {:induction false} FromBitsBound(n: nat, f: nat -> bool)
    ensures FromBits(n, f) < Shl(1, n)
  {
    if n > 0 { FromBitsBound(n - 1, (k: nat) => f(k + 1)); }
  }

  /** Two numbers with the same bits are the same number. */
  lemma {:induction false} SameBits(a: nat, b: nat)
    requires forall k: nat :: Bit(a, k) == Bit(b, k)
    ensures a == b
    decreases a + b
  {
    assert Bit(a, 0) == Bit(b, 0);
    if a + b > 0 {
      forall k: nat ensures Bit(a / 2, k) == Bit(b / 2, k) {
        assert Bit(a, k + 1) == Bit(b, k + 1);
      }
      SameBits(a / 2, b / 2);
    }
  }

  /** A number below 2^n has no bit at or above n. */
  lemma {:induction false} NoHighBits(a: nat, n: nat, k: nat)
    requires a < Shl(1, n) && n <= k
    ensures !Bit(a, k)
    decreases n
  {
    if n == 0 {
      BitOfZero(k);
    } else {
      NoHighBits(a / 2, n - 1, k - 1);
    }
  }

  /** ... and conversely. */
  lemma {:induction false} BoundFromBits(a: nat, n: nat)
    requires forall k: nat :: n <= k ==> !Bit(a, k)
    ensures a < Shl(1, n)
    decreases n
  {
    if n == 0 {
      forall k: nat ensures Bit(a, k) == Bit(0, k) { BitOfZero(k); }
      SameBits(a, 0);
    } else {
      forall k: nat | n - 1 <= k ensures !Bit(a / 2, k) {
        assert !Bit(a, k + 1);
      }
      BoundFromBits(a / 2, n - 1);
    }
  }

  /** Two octets with the same eight bits are the same octet. */
  lemma SameOctet(a: Byte, b: Byte)
    requires forall k :: 0 <= k < 8 ==> Bit(a, k) == Bit(b, k)
    ensures a == b
  {
    assert Shl(1, 8) == 256;
    forall k: nat ensures Bit(a, k) == Bit(b, k) {
      if k >= 8 { NoHighBits(a, 8, k); NoHighBits(b, 8, k); }
    }
    SameBits(a, b);
  }
}
