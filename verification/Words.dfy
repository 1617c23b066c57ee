/** Fixed-width machine words: powers of two, the 64-bit operators of C on
    unsigned operands, and the few division facts the multi-limb code needs. */
module Words {

  const TWO32: nat := 0x1_0000_0000
  const TWO64: nat := 0x1_0000_0000_0000_0000
  const TWO128: nat := 0x1_0000_0000_0000_0000_0000_0000_0000_0000
  const TWO256: nat :=
    0x1_0000_0000_0000_0000_0000_0000_0000_0000_0000_0000_0000_0000_0000_0000_0000_0000

  type uint8 = x: int | 0 <= x < 256
  type uint16 = x: int | 0 <= x < 0x1_0000
  type uint32 = x: int | 0 <= x < TWO32
  type uint64 = x: int | 0 <= x < TWO64

  function Pow2(n: nat): (p: nat)
    ensures p > 0
  {
    if n == 0 then 1 else 2 * Pow2(n - 1)
  }

  // C's arithmetic on uint64_t: every result is reduced modulo 2^64.

  function Add64(x: int, y: int): uint64 { (x + y) % TWO64 }

  function Sub64(x: int, y: int): uint64 { (x - y) % TWO64 }

  function Mul64(x: nat, y: nat): uint64 {
    x * y % TWO64
  }

  function Shl64(x: uint64, n: nat): uint64
    requires n < 64
  {
    x * Pow2(n) % TWO64
  }

  function Shr64(x: uint64, n: nat): (r: uint64)
    requires n < 64
  {
    DivSmaller(x, Pow2(n));
    x / Pow2(n)
  }

  /** Bitwise or on naturals, bit by bit. */
  function BitOr(x: nat, y: nat): (r: nat)
    decreases x + y
  {
    if x == 0 && y == 0 then 0
    else 2 * BitOr(x / 2, y / 2) + (if x % 2 == 1 || y % 2 == 1 then 1 else 0)
  }

  /** Number of significant bits. */
  function BitLength(n: nat): nat {
    if n == 0 then 0 else 1 + BitLength(n / 2)
  }

  lemma DivSmaller(x: nat, d: nat)
    requires d > 0
    ensures 0 <= x / d <= x
  {
    if x / d > x {
      MulMono(x + 1, x / d, d);
      MulMono(1, d, x + 1);
    }
  }

  lemma DivIdentity(x: nat, d: nat)
    requires d > 0
    ensures x == x / d * d + x % d && 0 <= x % d < d && 0 <= x / d <= x
  {
    DivSmaller(x, d);
  }

  lemma Distribute(x: int, y: int, z: int)
    ensures (x + y) * z == x * z + y * z
  {
  }

  lemma DistributeMinus(x: int, y: int, z: int)
    ensures (x - y) * z == x * z - y * z
  {
  }

  lemma Associate(x: int, y: int, z: int)
    ensures x * y * z == x * (y * z) == x * (z * y)
  {
  }

  lemma MulMono(x: nat, y: nat, z: nat)
    requires x <= y
    ensures x * z <= y * z && z * x <= z * y
  {
  }

  /** Quotient and remainder are determined by the division equation. */
  lemma DivModUnique(n: int, d: int, q: int, r: int)
    requires n == q * d + r && 0 <= r < d
    ensures n / d == q && n % d == r
  {
    var q', r' := n / d, n % d;
    assert n == q' * d + r' && 0 <= r' < d;
    assert (q - q') * d == r' - r;
    if q - q' >= 1 {
      MulMono(1, q - q', d);
    } else if q' - q >= 1 {
      MulMono(1, q' - q, d);
    }
  }

  /** Adding a multiple of the modulus changes nothing. */
  lemma ModAddMultiple(n: int, k: int, m: int)
    requires m > 0
    ensures (n + k * m) % m == n % m
  {
    DivModUnique(n + k * m, m, n / m + k, n % m);
  }

  lemma {:induction false} Pow2Add(a: nat, b: nat)
    ensures Pow2(a + b) == Pow2(a) * Pow2(b)
  {
    if a != 0 {
      Pow2Add(a - 1, b);
    }
  }

  lemma Pow2Mono(a: nat, b: nat)
    requires a <= b
    ensures Pow2(a) <= Pow2(b)
  {
    Pow2Add(a, b - a);
    MulMono(1, Pow2(b - a), Pow2(a));
  }

  lemma Pow2Square(n: nat, m: nat)
    requires m == 2 * n
    ensures Pow2(m) == Pow2(n) * Pow2(n)
  {
    Pow2Add(n, n);
  }

  lemma Pow2Words()
    ensures Pow2(8) == 256
    ensures Pow2(16) == 0x1_0000
    ensures Pow2(32) == TWO32
    ensures Pow2(64) == TWO64
  {
    assert Pow2(8) == 256;
    hide Pow2;
    Pow2Square(8, 16);
    Pow2Square(16, 32);
    Pow2Square(32, 64);
  }

  lemma Pow2Word128()
    ensures Pow2(128) == TWO128
  {
    hide Pow2;
    Pow2Words();
    Pow2Square(64, 128);
  }

  lemma Pow2Word256()
    ensures Pow2(256) == TWO256
  {
    hide Pow2;
    Pow2Word128();
    Pow2Square(128, 256);
  }

  lemma {:induction false} BitOrZero(x: nat)
    ensures BitOr(x, 0) == x
  {
    if x != 0 {
      BitOrZero(x / 2);
    }
  }

  lemma {:induction false} BitOrBelow(x: nat, y: nat, n: nat)
    requires x < Pow2(n) && y < Pow2(n)
    ensures BitOr(x, y) < Pow2(n)
  {
    if n != 0 {
      BitOrBelow(x / 2, y / 2, n - 1);
    }
  }

  lemma BitOrStep(x: nat, y: nat)
    ensures BitOr(x, y) == 2 * BitOr(x / 2, y / 2) + (if x % 2 == 1 || y % 2 == 1 then 1 else 0)
  {
  }

  /** Oring works limb by limb. */
  lemma {:induction false} BitOrLimbs(a: nat, b: nat, c: nat, d: nat, n: nat)
    requires b < Pow2(n) && d < Pow2(n)
    ensures a * Pow2(n) >= 0 && c * Pow2(n) >= 0
    ensures BitOr(a * Pow2(n) + b, c * Pow2(n) + d) == BitOr(a, c) * Pow2(n) + BitOr(b, d)
  {
    if n != 0 {
      HalveLimbs(a, b, n);
      HalveLimbs(c, d, n);
      BitOrLimbs(a, b / 2, c, d / 2, n - 1);
      BitOrStep(a * Pow2(n) + b, c * Pow2(n) + d);
      BitOrStep(b, d);
      DoublePow2(BitOr(a, c), n);
    }
  }

  lemma DoublePow2(x: int, n: nat)
    requires n > 0
    ensures x * Pow2(n) == 2 * (x * Pow2(n - 1))
  {
  }

  lemma HalveLimbs(a: nat, b: nat, n: nat)
    requires n > 0
    ensures a * Pow2(n) >= 0 && a * Pow2(n - 1) >= 0
    ensures (a * Pow2(n) + b) / 2 == a * Pow2(n - 1) + b / 2
    ensures (a * Pow2(n) + b) % 2 == b % 2
  {
    var t := a * Pow2(n - 1);
    MulMono(0, a, Pow2(n - 1));
    assert a * Pow2(n) == 2 * t;
  }

  /** Oring a power of two into a multiple of twice that power is adding it. */
  lemma BitOrAdds(q: nat, k: nat)
    ensures q * Pow2(k + 1) >= 0
    ensures BitOr(q * Pow2(k + 1), Pow2(k)) == q * Pow2(k + 1) + Pow2(k)
  {
    MulMono(0, q, Pow2(k + 1));
    BitOrLimbs(q, 0, 0, Pow2(k), k + 1);
    BitOrZero(q);
    OrZeroLeft(Pow2(k));
  }

  lemma {:induction false} OrZeroLeft(x: nat)
    ensures BitOr(0, x) == x
  {
    if x != 0 {
      OrZeroLeft(x / 2);
    }
  }

  lemma {:induction false} BitLengthBounds(n: nat)
    ensures n < Pow2(BitLength(n))
    ensures n > 0 ==> BitLength(n) > 0 && Pow2(BitLength(n) - 1) <= n
  {
    if n != 0 {
      BitLengthBounds(n / 2);
    }
  }

  lemma {:induction false} BitLengthMono(m: nat, n: nat)
    requires m <= n
    ensures BitLength(m) <= BitLength(n)
  {
    if m != 0 {
      BitLengthMono(m / 2, n / 2);
    }
  }

  /** The bits of a two-limb number are those of its upper limb, if it has any. */
  lemma {:induction false} BitLengthLimbs(u: nat, l: nat, n: nat)
    requires u > 0 && l < Pow2(n)
    ensures u * Pow2(n) + l >= 0
    ensures BitLength(u * Pow2(n) + l) == BitLength(u) + n
  {
    MulMono(1, u, Pow2(n));
    if n != 0 {
      HalveLimbs(u, l, n);
      BitLengthLimbs(u, l / 2, n - 1);
    }
  }
}
