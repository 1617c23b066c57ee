/** The invariant of shift-and-subtract division, stated on plain numbers so
    that the 128-bit and the 256-bit loops share it. */
module Division {
  import opened Words

  /** n stages remain: the quotient so far is m * 2^n, the remainder is below
      r * 2^n, and the shifted divisor and its weight are one stage down. */
  ghost predicate Stage(l: nat, r: nat, n: nat, m: nat, quo: nat, rem: nat, copyd: nat, adder: nat) {
    && quo == m * Pow2(n)
    && l == quo * r + rem
    && rem < r * Pow2(n)
    && (n > 0 ==> copyd == r * Pow2(n - 1) && adder == Pow2(n - 1))
  }

  /** Shifting the divisor left by the difference in bit length aligns it. */
  lemma Align(l: nat, r: nat)
    requires 0 < r <= l
    ensures BitLength(r) <= BitLength(l)
    ensures var c := r * Pow2(BitLength(l) - BitLength(r));
      c < Pow2(BitLength(l)) && l < 2 * c && c >= 0
  {
    hide BitLength, Pow2;
    BitLengthMono(r, l);
    BitLengthBounds(l);
    BitLengthBounds(r);
    var d := BitLength(l) - BitLength(r);
    Pow2Add(BitLength(r), d);
    Pow2Add(BitLength(r) - 1, d);
    DoubleNext(BitLength(l) - 1);
    MulMono(Pow2(BitLength(r) - 1), r, Pow2(d));
    MulMono(r + 1, Pow2(BitLength(r)), Pow2(d));
  }

  lemma DoubleNext(n: nat)
    ensures Pow2(n + 1) == 2 * Pow2(n)
  {
  }

  /** The first stage, whether or not the aligned divisor had to step back. */
  lemma Start(l: nat, r: nat, d: nat, c: nat)
    requires 0 < r <= l && d <= 128 * 2
    requires c == r * Pow2(d) && l < 2 * c
    ensures c <= l ==> Stage(l, r, d + 1, 0, 0, l, c, Pow2(d))
    ensures c > l ==> Stage(l, r, d, 0, 0, l, c / 2, Pow2(d) / 2)
  {
    assert Pow2(d + 1) == 2 * Pow2(d);
    DoublePow2(r, d + 1);
    if d > 0 {
      DoublePow2(r, d);
    }
  }

  lemma Running(l: nat, r: nat, n: nat, m: nat, quo: nat, rem: nat, copyd: nat, adder: nat)
    requires Stage(l, r, n, m, quo, rem, copyd, adder) && rem >= r
    ensures n > 0
  {
  }

  /** A stage whose divisor still fits: subtract it and record its weight. */
  lemma Take(l: nat, r: nat, n: nat, m: nat, quo: nat, rem: nat, copyd: nat, adder: nat)
    requires Stage(l, r, n, m, quo, rem, copyd, adder) && n > 0 && rem >= copyd
    ensures BitOr(quo, adder) == quo + adder
    ensures Stage(l, r, n - 1, 2 * m + 1, quo + adder, rem - copyd, copyd / 2, adder / 2)
  {
    BitOrAdds(m, n - 1);
    DoublePow2(m, n);
    DoublePow2(r, n);
    assert (2 * m + 1) * Pow2(n - 1) == quo + adder by {
      Distribute(2 * m, 1, Pow2(n - 1));
      Associate(2, m, Pow2(n - 1));
    }
    Distribute(quo, adder, r);
    Descend(r, n);
  }

  /** A stage whose divisor does not fit: move on. */
  lemma Skip(l: nat, r: nat, n: nat, m: nat, quo: nat, rem: nat, copyd: nat, adder: nat)
    requires Stage(l, r, n, m, quo, rem, copyd, adder) && n > 0 && rem < copyd
    ensures Stage(l, r, n - 1, 2 * m, quo, rem, copyd / 2, adder / 2)
  {
    DoublePow2(m, n);
    Associate(2, m, Pow2(n - 1));
    Descend(r, n);
  }

  lemma Descend(r: nat, n: nat)
    requires n > 0
    ensures n > 1 ==> r * Pow2(n - 1) / 2 == r * Pow2(n - 2) && Pow2(n - 1) / 2 == Pow2(n - 2)
  {
    if n > 1 {
      DoublePow2(r, n - 1);
    }
  }

  /** Once the remainder is below the divisor, both results are final. */
  lemma Finish(l: nat, r: nat, n: nat, m: nat, quo: nat, rem: nat, copyd: nat, adder: nat)
    requires Stage(l, r, n, m, quo, rem, copyd, adder) && 0 < r && rem < r
    ensures quo == l / r && rem == l % r
  {
    DivModUnique(l, r, quo, rem);
  }

  lemma SmallDividend(l: nat, r: nat)
    requires l < r
    ensures l / r == 0 && l % r == l
  {
    DivModUnique(l, r, 0, l);
  }
}
