/** Arithmetic on numbers made of two limbs of size t, carried out limb by limb.
    The 128-bit code uses t = 2^64, the 256-bit code t = 2^128. */
module Limbs {
  import opened Words

  /** The number with upper limb u and lower limb l. */
  ghost function Val(u: int, l: int, t: nat): int {
    u * t + l
  }

  /** Reducing the upper limb reduces the number modulo t^2. */
  lemma ReduceUpper(u: int, l: nat, t: nat)
    requires 0 <= l < t
    ensures t * t > 0 && Val(u % t, l, t) == Val(u, l, t) % (t * t)
  {
    var q, r := u / t, u % t;
    MulMono(1, t, t);
    Distribute(q * t, r, t);
    Associate(q, t, t);
    MulMono(r, t - 1, t);
    DistributeMinus(t, 1, t);
    MulMono(0, r, t);
    DivModUnique(Val(u, l, t), t * t, q, Val(r, l, t));
  }

  /** Adding limb by limb with a carry. */
  lemma AddLimbs(u1: nat, l1: nat, u2: nat, l2: nat, t: nat, carry: nat)
    requires l1 < t && l2 < t && carry == if (l1 + l2) % t < l1 then 1 else 0
    ensures t * t > 0
    ensures Val((u1 + u2 + carry) % t, (l1 + l2) % t, t) == (Val(u1, l1, t) + Val(u2, l2, t)) % (t * t)
  {
    CarryOut(l1, l2, t, carry);
    var s := (l1 + l2) % t;
    ReduceUpper(u1 + u2 + carry, s, t);
    Distribute(u1 + u2, carry, t);
    Distribute(u1, u2, t);
  }

  lemma CarryOut(l1: nat, l2: nat, t: nat, carry: nat)
    requires l1 < t && l2 < t && carry == if (l1 + l2) % t < l1 then 1 else 0
    ensures l1 + l2 == carry * t + (l1 + l2) % t
  {
    if l1 + l2 < t {
      DivModUnique(l1 + l2, t, 0, l1 + l2);
    } else {
      DivModUnique(l1 + l2, t, 1, l1 + l2 - t);
    }
  }

  /** Subtracting limb by limb with a borrow. */
  lemma MinusLimbs(u1: nat, l1: nat, u2: nat, l2: nat, t: nat, borrow: nat)
    requires l1 < t && l2 < t && borrow == if (l1 - l2) % t > l1 then 1 else 0
    ensures t * t > 0
    ensures Val((u1 - u2 - borrow) % t, (l1 - l2) % t, t) == (Val(u1, l1, t) - Val(u2, l2, t)) % (t * t)
  {
    BorrowOut(l1, l2, t, borrow);
    var s := (l1 - l2) % t;
    ReduceUpper(u1 - u2 - borrow, s, t);
    DistributeMinus(u1 - u2, borrow, t);
    DistributeMinus(u1, u2, t);
  }

  lemma BorrowOut(l1: nat, l2: nat, t: nat, borrow: nat)
    requires l1 < t && l2 < t && borrow == if (l1 - l2) % t > l1 then 1 else 0
    ensures l1 - l2 == (l1 - l2) % t - borrow * t
  {
    if l1 >= l2 {
      DivModUnique(l1 - l2, t, 0, l1 - l2);
    } else {
      DivModUnique(l1 - l2, t, -1, l1 - l2 + t);
    }
  }

  /** Multiplying by p moves everything above q out of a limb of size p * q. */
  lemma SplitProduct(l: nat, p: nat, q: nat, t: nat)
    requires p > 0 && q > 0 && p * q == t
    ensures l * p == (l / q) * t + (l % q) * p
    ensures 0 <= (l % q) * p <= t - p
    ensures l < t ==> l / q < p
    ensures l / q >= 0
  {
    var hi, lo := l / q, l % q;
    assert l == hi * q + lo;
    Distribute(hi * q, lo, p);
    Associate(hi, q, p);
    MulMono(lo, q - 1, p);
    MulMono(0, lo, p);
    if hi >= p {
      MulMono(p, hi, q);
    }
  }

  /** Left shift by less than a limb: the bits leaving the lower limb enter the
      upper one. */
  lemma ShlWithin(u: nat, l: nat, p: nat, q: nat, t: nat)
    requires p > 0 && q > 0 && p * q == t && l < t
    ensures t * t > 0 && t > 0
    ensures Val((u * p % t + l / q) % t, l * p % t, t) == Val(u, l, t) * p % (t * t)
  {
    var hi, r := l / q, (l % q) * p;
    SplitProduct(l, p, q, t);
    DivModUnique(l * p, t, hi, r);
    ModAddInner(u * p, hi, t);
    ReduceUpper(u * p + hi, r, t);
    Distribute(u * t, l, p);
    Associate(u, t, p);
    Associate(u, p, t);
    Distribute(u * p, hi, t);
  }

  /** Right shift by less than a limb. */
  lemma ShrWithin(u: nat, l: nat, p: nat, q: nat, t: nat)
    requires p > 0 && q > 0 && p * q == t && l < t
    ensures t > 0
    ensures Val(u / p, (u * q % t + l / p) % t, t) == Val(u, l, t) / p
  {
    ShrLowerLimb(u, l, p, q, t);
    var uh, ul, lh, ll := u / p, u % p, l / p, l % p;
    Regroup(uh, ul, lh, ll, p, q, t);
    DivModUnique(Val(u, l, t), p, Val(uh, ul * q + lh, t), ll);
  }

  lemma ShrLowerLimb(u: nat, l: nat, p: nat, q: nat, t: nat)
    requires p > 0 && q > 0 && p * q == t && l < t
    ensures t > 0 && (u * q % t + l / p) % t == (u % p) * q + l / p
  {
    SplitProduct(u, q, p, t);
    SplitProduct(l, q, p, t);
    DivModUnique(u * q, t, u / p, (u % p) * q);
    DivModUnique((u % p) * q + l / p, t, 0, (u % p) * q + l / p);
  }

  lemma Regroup(uh: int, ul: int, lh: int, ll: int, p: int, q: int, t: int)
    requires p * q == t
    ensures (uh * p + ul) * t + (lh * p + ll) == (uh * t + (ul * q + lh)) * p + ll
  {
    Distribute(uh * t, ul * q + lh, p);
    Distribute(ul * q, lh, p);
    Associate(ul, q, p);
    Associate(uh, p, t);
    Associate(uh, t, p);
    Distribute(uh * p, ul, t);
  }

  /** Left shift by a whole limb and a factor p: only the lower limb survives. */
  lemma ShlBeyond(u: nat, l: nat, p: nat, t: nat)
    requires t > 0
    ensures t * t > 0 && Val(l * p % t, 0, t) == Val(u, l, t) * (p * t) % (t * t)
  {
    var a, b := u * p, l * p;
    Associate(Val(u, l, t), p, t);
    Distribute(u * t, l, p);
    Associate(u, p, t);
    Associate(u, t, p);
    Distribute(a * t, b, t);
    Associate(a, t, t);
    MulMono(1, t, t);
    ModAddMultiple(Val(b, 0, t), a, t * t);
    ReduceUpper(b, 0, t);
  }

  /** Right shift by a whole limb and a factor p: only the upper limb survives. */
  lemma ShrBeyond(u: nat, l: nat, p: nat, t: nat)
    requires p > 0 && l < t
    ensures p * t > 0 && u / p == Val(u, l, t) / (p * t)
  {
    var q, r := u / p, u % p;
    Distribute(q * p, r, t);
    Associate(q, p, t);
    MulMono(1, p, t);
    MulMono(r, p - 1, t);
    DistributeMinus(p, 1, t);
    MulMono(0, r, t);
    DivModUnique(Val(u, l, t), p * t, q, Val(r, l, t));
  }

  lemma ModAddInner(x: int, y: int, m: int)
    requires m > 0
    ensures (x % m + y) % m == (x + y) % m
  {
    ModAddMultiple(x % m + y, x / m, m);
  }
}
