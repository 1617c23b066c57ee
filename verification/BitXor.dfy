/** Exclusive or on naturals, bit by bit, and its group laws. */
module BitXor {
  import opened Words

  function Xor(x: nat, y: nat): (r: nat)
    decreases x + y
  {
    if x == 0 && y == 0 then 0
    else 2 * Xor(x / 2, y / 2) + (x + y) % 2
  }

  lemma XorUnfold(x: nat, y: nat)
    ensures Xor(x, y) == 2 * Xor(x / 2, y / 2) + (x + y) % 2
  {
  }

  lemma XorStep(x: nat, y: nat)
    ensures Xor(x, y) == 2 * Xor(x / 2, y / 2) + (x + y) % 2
    ensures Xor(x, y) / 2 == Xor(x / 2, y / 2) && Xor(x, y) % 2 == (x + y) % 2
  {
    hide Xor;
    XorUnfold(x, y);
  }

  lemma {:induction false} XorComm(x: nat, y: nat)
    ensures Xor(x, y) == Xor(y, x)
    decreases x + y
  {
    if x != 0 || y != 0 {
      XorComm(x / 2, y / 2);
    }
  }

  lemma {:induction false} XorZero(x: nat)
    ensures Xor(x, 0) == x && Xor(0, x) == x
  {
    if x != 0 {
      XorZero(x / 2);
    }
  }

  lemma {:induction false} XorSelf(x: nat)
    ensures Xor(x, x) == 0
  {
    if x != 0 {
      XorSelf(x / 2);
    }
  }

  lemma Parity(x: int, x': int, y: int, y': int)
    requires x % 2 == x' % 2 && y % 2 == y' % 2
    ensures (x + y) % 2 == (x' + y') % 2
  {
  }

  lemma {:induction false} XorAssoc(x: nat, y: nat, z: nat)
    ensures Xor(Xor(x, y), z) == Xor(x, Xor(y, z))
    decreases x + y + z
  {
    hide Xor;
    XorZero(0);
    if x != 0 || y != 0 || z != 0 {
      XorAssoc(x / 2, y / 2, z / 2);
      XorStep(x, y);
      XorStep(y, z);
      Parity(Xor(x, y), x + y, z, z);
      Parity(x, x, Xor(y, z), y + z);
      XorStep(Xor(x, y), z);
      XorStep(x, Xor(y, z));
    }
  }

  lemma XorCancel(x: nat, y: nat)
    ensures Xor(Xor(x, y), y) == x && Xor(x, Xor(x, y)) == y
    ensures Xor(x, y) == 0 <==> x == y
  {
    XorAssoc(x, y, y);
    XorAssoc(x, x, y);
    XorSelf(x);
    XorSelf(y);
    XorZero(x);
    XorZero(y);
  }

  lemma XorSwap(a: nat, b: nat, c: nat, d: nat)
    ensures Xor(Xor(a, b), Xor(c, d)) == Xor(Xor(a, c), Xor(b, d))
  {
    hide Xor;
    XorAssoc(a, b, Xor(c, d));
    XorAssoc(b, c, d);
    XorComm(b, c);
    XorAssoc(c, b, d);
    XorAssoc(a, c, Xor(b, d));
  }

  lemma {:induction false} XorBelow(x: nat, y: nat, n: nat)
    requires x < Pow2(n) && y < Pow2(n)
    ensures Xor(x, y) < Pow2(n)
  {
    hide Xor;
    XorZero(0);
    if n != 0 {
      XorStep(x, y);
      XorBelow(x / 2, y / 2, n - 1);
    }
  }

  /** Exclusive or works on the two parts of a number separately. */
  lemma {:induction false} XorParts(a: nat, b: nat, c: nat, d: nat, n: nat)
    requires b < Pow2(n) && d < Pow2(n)
    ensures a * Pow2(n) >= 0 && c * Pow2(n) >= 0
    ensures Xor(a * Pow2(n) + b, c * Pow2(n) + d) == Xor(a, c) * Pow2(n) + Xor(b, d)
  {
    hide Xor;
    XorZero(0);
    if n != 0 {
      HalveLimbs(a, b, n);
      HalveLimbs(c, d, n);
      XorParts(a, b / 2, c, d / 2, n - 1);
      Parity(a * Pow2(n) + b, b, c * Pow2(n) + d, d);
      XorStep(a * Pow2(n) + b, c * Pow2(n) + d);
      XorStep(b, d);
      DoublePow2(Xor(a, c), n);
    }
  }

  /** High and low parts of an exclusive or. */
  lemma XorDivMod(x: nat, y: nat, n: nat)
    ensures x / Pow2(n) >= 0 && y / Pow2(n) >= 0
    ensures Xor(x, y) / Pow2(n) == Xor(x / Pow2(n), y / Pow2(n))
    ensures Xor(x, y) % Pow2(n) == Xor(x % Pow2(n), y % Pow2(n))
  {
    hide Xor, Pow2;
    var p := Pow2(n);
    DivIdentity(x, p);
    DivIdentity(y, p);
    XorParts(x / p, x % p, y / p, y % p, n);
    XorBelow(x % p, y % p, n);
    DivModUnique(Xor(x, y), p, Xor(x / p, y / p), Xor(x % p, y % p));
  }
}
