/** 256-bit unsigned numbers as two 128-bit limbs, each written in place. */
module Uint256 {
  import opened Words
  import opened Limbs
  import opened SchoolBook
  import opened Division
  import opened Uint128

  class U256 {
    const upper: U128
    const lower: U128

    constructor ()
      ensures fresh(upper) && fresh(lower) && upper != lower
      ensures Value() == 0 && upper.Value() == 0 && lower.Value() == 0
      ensures upper.upper == 0 && upper.lower == 0 && lower.upper == 0 && lower.lower == 0
    {
      upper := new U128(0, 0);
      lower := new U128(0, 0);
    }

    ghost function Value(): (v: nat)
      reads upper, lower
      ensures v < TWO256
    {
      upper.Value() * TWO128 + lower.Value()
    }

    /** The limbs are two different objects. */
    ghost predicate Valid() {
      upper != lower
    }
  }

  /** Two numbers are the same object or share no limb. */
  ghost predicate Apart(a: U256, b: U256) {
    && a.Valid() && b.Valid()
    && (a == b || (a.upper != b.upper && a.upper != b.lower && a.lower != b.upper && a.lower != b.lower))
  }

  // ---- Tests ---------------------------------------------------------------------

  predicate Zero256(number: U256)
    reads number.upper, number.lower
    ensures Zero256(number) <==> number.Value() == 0
  {
    Zero(number.lower) && Zero(number.upper)
  }

  predicate Equal256(number1: U256, number2: U256)
    reads number1.upper, number1.lower, number2.upper, number2.lower
    ensures Equal256(number1, number2) <==> number1.Value() == number2.Value()
  {
    Equal(number1.upper, number2.upper) && Equal(number1.lower, number2.lower)
  }

  predicate Gt256(number1: U256, number2: U256)
    reads number1.upper, number1.lower, number2.upper, number2.lower
    ensures Gt256(number1, number2) <==> number1.Value() > number2.Value()
  {
    if Equal(number1.upper, number2.upper) then
      Gt(number1.lower, number2.lower)
    else
      Gt(number1.upper, number2.upper)
  }

  predicate Gte256(number1: U256, number2: U256)
    reads number1.upper, number1.lower, number2.upper, number2.lower
    ensures Gte256(number1, number2) <==> number1.Value() >= number2.Value()
  {
    Gt256(number1, number2) || Equal256(number1, number2)
  }

  // ---- Moves -----------------------------------------------------------------------

  method Copy256(target: U256, number: U256)
    requires Apart(target, number)
    modifies target.upper, target.lower
    ensures target.Value() == old(number.Value())
  {
    Copy(target.upper, number.upper);
    Copy(target.lower, number.lower);
  }

  method Clear256(target: U256)
    requires target.Valid()
    modifies target.upper, target.lower
    ensures target.Value() == 0
  {
    Clear(target.upper);
    Clear(target.lower);
  }

  // ---- Addition, subtraction, or ------------------------------------------------------

  /** Addition and subtraction reduced modulo 2^256. */
  ghost function Sum256(x: int, y: int): nat { (x + y) % TWO256 }

  ghost function Difference256(x: int, y: int): nat { (x - y) % TWO256 }

  method Add256(number1: U256, number2: U256, target: U256)
    requires Apart(number1, target) && Apart(number2, target)
    modifies target.upper, target.lower
    ensures target.Value() == Sum256(old(number1.Value()), old(number2.Value()))
  {
    hide U128.Value, U256.Value, Sum256;
    TwoLimbs(number1);
    TwoLimbs(number2);
    AddHalves(number1.upper, number1.lower, number2.upper, number2.lower, target.upper, target.lower);
    TwoLimbs(target);
  }

  lemma TwoLimbs(number: U256)
    ensures number.Value() == number.upper.Value() * TWO128 + number.lower.Value()
  {
    hide U128.Value;
  }

  /** Adds limb by limb; the upper limb of the target is none of the lower ones. */
  method AddHalves(upper1: U128, lower1: U128, upper2: U128, lower2: U128, upper: U128, lower: U128)
    requires upper != lower && upper != lower1 && upper != lower2
    modifies upper, lower
    ensures upper.Value() * TWO128 + lower.Value()
      == Sum256(old(upper1.Value()) * TWO128 + old(lower1.Value()),
                old(upper2.Value()) * TWO128 + old(lower2.Value()))
  {
    hide U128.Value, Sum128, Sum256;
    ghost var u1, l1, u2, l2 := upper1.Value(), lower1.Value(), upper2.Value(), lower2.Value();
    var tmp := new U128(0, 0);
    Add(upper1, upper2, upper);
    Add(lower1, lower2, tmp);
    ghost var h, s := upper.Value(), tmp.Value();
    CarryOne(upper, Gt(lower1, tmp));
    ghost var h' := upper.Value();
    Add(lower1, lower2, lower);
    AddTwoStep(u1, l1, u2, l2, h, s, h');
  }

  /** Adds the carry, if there is one. */
  method CarryOne(limb: U128, carry: bool)
    modifies limb
    ensures limb.Value() == if carry then Sum128(old(limb.Value()), 1) else old(limb.Value())
  {
    hide U128.Value, Sum128;
    if carry {
      var one := new U128(0, 1);
      Add(limb, one, limb);
    }
  }

  /** Adding the carry in a second step gives the same upper limb. */
  lemma AddTwoStep(u1: nat, l1: nat, u2: nat, l2: nat, h: nat, s: nat, h': nat)
    requires l1 < TWO128 && l2 < TWO128
    requires h == Sum128(u1, u2) && s == Sum128(l1, l2)
    requires h' == if l1 > s then Sum128(h, 1) else h
    ensures h' * TWO128 + s == Sum256(u1 * TWO128 + l1, u2 * TWO128 + l2)
  {
    var carry := if (l1 + l2) % TWO128 < l1 then 1 else 0;
    AddLimbs(u1, l1, u2, l2, TWO128, carry);
    ModAddInner(u1 + u2, 1, TWO128);
  }

  method Minus256(number1: U256, number2: U256, target: U256)
    requires Apart(number1, target) && Apart(number2, target)
    modifies target.upper, target.lower
    ensures target.Value() == Difference256(old(number1.Value()), old(number2.Value()))
    ensures old(number1.Value()) >= old(number2.Value()) ==>
      target.Value() == old(number1.Value()) - old(number2.Value())
  {
    hide U128.Value, U256.Value;
    TwoLimbs(number1);
    TwoLimbs(number2);
    NoBorrow(number1.Value(), number2.Value(), TWO256);
    MinusHalves(number1.upper, number1.lower, number2.upper, number2.lower, target.upper, target.lower);
    TwoLimbs(target);
  }

  /** Subtracts limb by limb; the upper limb of the target is none of the lower ones. */
  method MinusHalves(upper1: U128, lower1: U128, upper2: U128, lower2: U128, upper: U128, lower: U128)
    requires upper != lower && upper != lower1 && upper != lower2
    modifies upper, lower
    ensures upper.Value() * TWO128 + lower.Value()
      == Difference256(old(upper1.Value()) * TWO128 + old(lower1.Value()),
                       old(upper2.Value()) * TWO128 + old(lower2.Value()))
  {
    hide U128.Value, Difference128, Difference256;
    ghost var u1, l1, u2, l2 := upper1.Value(), lower1.Value(), upper2.Value(), lower2.Value();
    var tmp := new U128(0, 0);
    Minus(upper1, upper2, upper);
    Minus(lower1, lower2, tmp);
    ghost var h, s := upper.Value(), tmp.Value();
    BorrowOne(upper, Gt(tmp, lower1));
    ghost var h' := upper.Value();
    Minus(lower1, lower2, lower);
    MinusTwoStep(u1, l1, u2, l2, h, s, h');
  }

  /** Takes the borrow, if there is one. */
  method BorrowOne(limb: U128, borrow: bool)
    modifies limb
    ensures limb.Value() == if borrow then Difference128(old(limb.Value()), 1) else old(limb.Value())
  {
    hide U128.Value, Difference128;
    if borrow {
      var one := new U128(0, 1);
      Minus(limb, one, limb);
    }
  }

  /** Taking the borrow in a second step gives the same upper limb. */
  lemma MinusTwoStep(u1: nat, l1: nat, u2: nat, l2: nat, h: nat, s: nat, h': nat)
    requires u1 < TWO128 && l1 < TWO128 && l2 < TWO128
    requires h == Difference128(u1, u2) && s == Difference128(l1, l2)
    requires h' == if s > l1 then Difference128(h, 1) else h
    ensures h' * TWO128 + s == Difference256(u1 * TWO128 + l1, u2 * TWO128 + l2)
  {
    var borrow := if (l1 - l2) % TWO128 > l1 then 1 else 0;
    MinusLimbs(u1, l1, u2, l2, TWO128, borrow);
    LaterStep(u1 - u2, borrow);
  }

  lemma LaterStep(d: int, borrow: nat)
    ensures (d % TWO128 - borrow) % TWO128 == (d - borrow) % TWO128
    ensures d % TWO128 % TWO128 == d % TWO128
  {
    ModAddInner(d, 0 - borrow, TWO128);
    ModAddInner(d, 0, TWO128);
  }

  method Or256(number1: U256, number2: U256, target: U256)
    requires Apart(number1, target) && Apart(number2, target)
    modifies target.upper, target.lower
    ensures target.Value() == BitOr(old(number1.Value()), old(number2.Value()))
  {
    hide U128.Value, BitOr;
    ghost var u1, l1 := number1.upper.Value(), number1.lower.Value();
    ghost var u2, l2 := number2.upper.Value(), number2.lower.Value();
    ghost var both := BitOr(number1.Value(), number2.Value());
    assert both == BitOr(u1, u2) * TWO128 + BitOr(l1, l2) by { OrLimbs256(u1, l1, u2, l2); }
    Or(number1.upper, number2.upper, target.upper);
    Or(number1.lower, number2.lower, target.lower);
  }

  lemma OrLimbs256(u1: nat, l1: nat, u2: nat, l2: nat)
    requires l1 < TWO128 && l2 < TWO128
    ensures BitOr(u1 * TWO128 + l1, u2 * TWO128 + l2) == BitOr(u1, u2) * TWO128 + BitOr(l1, l2)
  {
    hide Pow2;
    Pow2Word128();
    BitOrLimbs(u1, l1, u2, l2, 128);
  }

  // ---- Shifts --------------------------------------------------------------------------

  /** Left shift of a 256-bit value. */
  ghost function Shl256(v: nat, n: nat): nat {
    v * Pow2(n) % TWO256
  }

  lemma SplitLimb(n: nat)
    requires n <= 128
    ensures Pow2(n) * Pow2(128 - n) == TWO128
  {
    hide Pow2;
    Pow2Word128();
    Pow2Add(n, 128 - n);
  }

  lemma ShlLimbs256(u: nat, l: nat, n: nat)
    requires 0 < n < 128 && u < TWO128 && l < TWO128
    ensures Val(Sum128(Shl128(u, n), Shr(l, 128 - n)), Shl128(l, n), TWO128) == Shl256(Val(u, l, TWO128), n)
  {
    SplitLimb(n);
    ShlWithin(u, l, Pow2(n), Pow2(128 - n), TWO128);
  }

  lemma ShrLimbs256(u: nat, l: nat, n: nat)
    requires 0 < n < 128 && u < TWO128 && l < TWO128
    ensures Val(Shr(u, n), Sum128(Shr(l, n), Shl128(u, 128 - n)), TWO128) == Shr(Val(u, l, TWO128), n)
  {
    var p, q := Pow2(n), Pow2(128 - n);
    SplitLimb(n);
    assert Shl128(u, 128 - n) == u * q % TWO128;
    ShrWithin(u, l, p, q, TWO128);
  }

  lemma ShlHighLimbs256(u: nat, l: nat, n: nat)
    requires 128 <= n < 256 && u < TWO128 && l < TWO128
    ensures Val(Shl128(l, n - 128), 0, TWO128) == Shl256(Val(u, l, TWO128), n)
  {
    hide Pow2;
    Pow2Word128();
    Pow2Add(n - 128, 128);
    ShlBeyond(u, l, Pow2(n - 128), TWO128);
  }

  lemma ShrHighLimbs256(u: nat, l: nat, n: nat)
    requires 128 <= n < 256 && u < TWO128 && l < TWO128
    ensures Val(0, Shr(u, n - 128), TWO128) == Shr(Val(u, l, TWO128), n)
  {
    hide Pow2;
    Pow2Word128();
    Pow2Add(n - 128, 128);
    ShrBeyond(u, l, Pow2(n - 128), TWO128);
  }

  lemma ShlNone256(v: nat)
    requires v < TWO256
    ensures Shl256(v, 0) == v
  {
    DivModUnique(v, TWO256, 0, v);
  }

  lemma ShlEnds256(v: nat, n: nat)
    requires v < TWO256
    ensures Shl256(v, 0) == v
    ensures n >= 256 ==> Shl256(v, n) == 0
  {
    hide Pow2;
    ShlNone256(v);
    if n >= 256 {
      Pow2Word256();
      Pow2Add(n - 256, 256);
      Associate(v, Pow2(n - 256), TWO256);
      ModAddMultiple(0, v * Pow2(n - 256), TWO256);
    }
  }

  lemma ShrNone(v: nat)
    ensures Shr(v, 0) == v
  {
    assert Pow2(0) == 1;
  }

  lemma ShrEnds256(v: nat, n: nat)
    requires v < TWO256
    ensures Shr(v, 0) == v
    ensures n >= 256 ==> Shr(v, n) == 0
  {
    assert Pow2(0) == 1;
    hide Pow2;
    if n >= 256 {
      Pow2Word256();
      Pow2Mono(256, n);
      DivModUnique(v, Pow2(n), 0, v);
    }
  }

  /** Left shift, reduced modulo 2^256; the target may be the operand. */
  method ShiftL256(number: U256, value: uint32, target: U256)
    requires Apart(number, target)
    modifies target.upper, target.lower
    ensures target.Value() == Shl256(old(number.Value()), value)
  {
    hide U128.Value, Shl128, Shl256, Shr, Pow2, Sum128;
    ghost var u, l, v := number.upper.Value(), number.lower.Value(), number.Value();
    assert v == Val(u, l, TWO128);
    ShlEnds256(v, value);
    if value >= 256 {
      Clear256(target);
    } else if value == 128 {
      ShlHighLimbs256(u, l, value);
      ShlZero(l);
      Copy(target.upper, number.lower);
      Clear(target.lower);
    } else if value == 0 {
      Copy256(target, number);
    } else if value < 128 {
      ShlLimbs256(u, l, value);
      ShiftLWithin(number, value, target);
    } else {
      ShlHighLimbs256(u, l, value);
      ShiftL(number.lower, value - 128, target.upper);
      Clear(target.lower);
    }
  }

  /** The case of a shift within one limb, built in temporaries. */
  method ShiftLWithin(number: U256, value: uint32, target: U256)
    requires Apart(number, target) && 0 < value < 128
    modifies target.upper, target.lower
    ensures target.upper.Value() ==
      Sum128(Shl128(old(number.upper.Value()), value), Shr(old(number.lower.Value()), 128 - value))
    ensures target.lower.Value() == Shl128(old(number.lower.Value()), value)
  {
    hide U128.Value, Shl128, Shr, Pow2, Sum128;
    var upper, lower := ShiftedLeft(number.upper, number.lower, value);
    Copy(target.upper, upper);
    Copy(target.lower, lower);
  }

  method ShiftedLeft(u: U128, l: U128, value: uint32) returns (upper: U128, lower: U128)
    requires 0 < value < 128
    ensures fresh(upper) && fresh(lower) && upper != lower
    ensures upper.Value() == Sum128(Shl128(u.Value(), value), Shr(l.Value(), 128 - value))
    ensures lower.Value() == Shl128(l.Value(), value)
  {
    hide U128.Value, Shl128, Shr, Pow2, Sum128;
    var tmp1 := new U128(0, 0);
    var tmp2 := new U128(0, 0);
    upper := new U128(0, 0);
    lower := new U128(0, 0);
    ShiftL(u, value, tmp1);
    ShiftR(l, 128 - value, tmp2);
    Add(tmp1, tmp2, upper);
    ShiftL(l, value, lower);
  }

  /** Right shift. Unlike its 128-bit counterpart it is exact in place for
      every shift, because the limbs it moves between are different objects. */
  method ShiftR256(number: U256, value: uint32, target: U256)
    requires Apart(number, target)
    modifies target.upper, target.lower
    ensures target.Value() == Shr(old(number.Value()), value)
    ensures value == 1 ==> target.Value() == old(number.Value()) / 2
  {
    hide U128.Value, Shl128, Shr, Pow2, Sum128;
    ShrOne(number.Value());
    ghost var u, l, v := number.upper.Value(), number.lower.Value(), number.Value();
    assert v == Val(u, l, TWO128);
    ShrEnds256(v, value);
    if value >= 256 {
      Clear256(target);
    } else if value == 128 {
      ShrHighLimbs256(u, l, value);
      ShrNone(u);
      Copy(target.lower, number.upper);
      Clear(target.upper);
    } else if value == 0 {
      Copy256(target, number);
    } else if value < 128 {
      ShrLimbs256(u, l, value);
      ShiftRWithin(number, value, target);
    } else {
      ShrHighLimbs256(u, l, value);
      ShiftR(number.upper, value - 128, target.lower);
      Clear(target.upper);
    }
  }

  method ShiftRWithin(number: U256, value: uint32, target: U256)
    requires Apart(number, target) && 0 < value < 128
    modifies target.upper, target.lower
    ensures target.upper.Value() == Shr(old(number.upper.Value()), value)
    ensures target.lower.Value() ==
      Sum128(Shr(old(number.lower.Value()), value), Shl128(old(number.upper.Value()), 128 - value))
  {
    hide U128.Value, Shl128, Shr, Pow2, Sum128;
    var upper, lower := ShiftedRight(number.upper, number.lower, value);
    Copy(target.upper, upper);
    Copy(target.lower, lower);
  }

  method ShiftedRight(u: U128, l: U128, value: uint32) returns (upper: U128, lower: U128)
    requires 0 < value < 128
    ensures fresh(upper) && fresh(lower) && upper != lower
    ensures upper.Value() == Shr(u.Value(), value)
    ensures lower.Value() == Sum128(Shr(l.Value(), value), Shl128(u.Value(), 128 - value))
  {
    hide U128.Value, Shl128, Shr, Pow2, Sum128;
    var tmp1 := new U128(0, 0);
    var tmp2 := new U128(0, 0);
    upper := new U128(0, 0);
    lower := new U128(0, 0);
    ShiftR(u, value, upper);
    ShiftR(l, value, tmp1);
    ShiftL(u, 128 - value, tmp2);
    Add(tmp1, tmp2, lower);
  }

  /** The number of significant bits. */
  method Bits256(number: U256) returns (result: uint32)
    requires number.Valid()
    ensures result == BitLength(number.Value()) && result <= 256
  {
    hide U128.Value, BitLength;
    result := 0;
    if !Zero(number.upper) {
      BitsOfLimbs256(number.upper.Value(), number.lower.Value());
      var count := CountBits(number.upper);
      result := 128 + count;
    } else {
      result := CountBits(number.lower);
    }
  }

  /** Counts by shifting a copy down to zero. */
  method CountBits(limb: U128) returns (result: uint32)
    ensures result == BitLength(limb.Value()) && result <= 128
  {
    LimbBits(limb.Value());
    var copy := new U128(0, 0);
    Copy(copy, limb);
    result := 0;
    while !Zero(copy)
      invariant fresh(copy) && result + BitLength(copy.Value()) == BitLength(limb.Value())
      decreases copy.Value()
    {
      ShiftR(copy, 1, copy);
      result := result + 1;
    }
  }

  lemma LimbBits(w: nat)
    requires w < TWO128
    ensures BitLength(w) <= 128
  {
    hide Pow2;
    Pow2Word128();
    BitLengthBounds(w);
    if BitLength(w) > 128 {
      Pow2Mono(128, BitLength(w) - 1);
    }
  }

  lemma BitsOfLimbs256(u: nat, l: nat)
    requires 0 < u < TWO128 && l < TWO128
    ensures BitLength(u * TWO128 + l) == BitLength(u) + 128 <= 256
  {
    hide Pow2;
    Pow2Word128();
    BitLengthLimbs(u, l, 128);
    LimbBits(u);
  }

  // ---- Multiplication -------------------------------------------------------------------

  /** The four 64-bit words of a 256-bit value. */
  ghost function Split64(v: nat): (w: seq<nat>)
    requires v < TWO256
    ensures |w| == 4 && forall i :: 0 <= i < 4 ==> w[i] < TWO64
    ensures Horner(w, TWO64) == v
  {
    var u, l := v / TWO128, v % TWO128;
    [u / TWO64, u % TWO64, l / TWO64, l % TWO64]
  }

  /** What the column of weight 2^64 carries into the column of weight 2^128. */
  ghost function ThirdCarry(a: nat, b: nat): nat
    requires a < TWO256 && b < TWO256
  {
    ColumnSums(Table(Split64(a), Split64(b)), TWO64)[2] / TWO64
  }

  /** A product of two words, halves apart. */
  datatype Wide = Wide(upper: uint64, lower: uint64)

  lemma WordProduct64(x: nat, y: nat)
    requires x < TWO64 && y < TWO64
    ensures 0 <= x * y < TWO128 && x * y % TWO128 == x * y
  {
    MulMono(0, x, y);
    MulMono(x, TWO64, y);
    DivModUnique(x * y, TWO128, 0, x * y);
  }

  ghost predicate IsProduct(p: Wide, x: nat, y: nat) {
    p.upper == Hi(NatProduct(x, y), TWO64) && p.lower == Lo(NatProduct(x, y), TWO64)
  }

  /** One word product through the 128-bit multiplier. */
  method MulWords(x: uint64, y: uint64) returns (p: Wide)
    ensures IsProduct(p, x, y)
  {
    var a := new U128(0, x);
    var b := new U128(0, y);
    var c := new U128(0, 0);
    Mul(a, b, c);
    WordProduct64(x, y);
    DivModUnique(x * y, TWO64, c.upper, c.lower);
    p := Wide(c.upper, c.lower);
  }

  /** The table of word products. */
  method WordProducts64(top: seq<uint64>, bottom: seq<uint64>) returns (products: array2<Wide>)
    requires |top| == 4 && |bottom| == 4
    ensures fresh(products) && products.Length0 == 4 && products.Length1 == 4
    ensures forall x, y :: 0 <= x < 4 && 0 <= y < 4 ==> IsProduct(products[x, y], top[3 - x], bottom[y])
  {
    products := new Wide[4, 4]((x, y) => Wide(0, 0));
    var y := 3;
    while y > -1
      invariant -1 <= y <= 3
      invariant forall i, j :: 0 <= i < 4 && y < j < 4 ==> IsProduct(products[i, j], top[3 - i], bottom[j])
    {
      var x := 3;
      while x > -1
        invariant -1 <= x <= 3
        invariant forall i, j :: 0 <= i < 4 && y < j < 4 ==> IsProduct(products[i, j], top[3 - i], bottom[j])
        invariant forall i :: 0 <= i < 3 - x ==> IsProduct(products[i, y], top[3 - i], bottom[y])
      {
        var p := MulWords(top[x], bottom[y]);
        products[3 - x, y] := p;
        x := x - 1;
      }
      y := y - 1;
    }
  }

  /** column += word. */
  method AddWord(column: U128, word: uint64)
    requires column.Value() + word < TWO128
    modifies column
    ensures column.Value() == old(column.Value()) + word
  {
    var tmp := new U128(0, word);
    var tmp2 := new U128(0, 0);
    ghost var sum := column.Value() + word;
    DivModUnique(sum, TWO128, 0, sum);
    Add(tmp, column, tmp2);
    Copy(column, tmp2);
  }

  method ThirdColumn(a: uint64, b: uint64, c: uint64) returns (third64: U128)
    ensures fresh(third64) && third64.Value() == a + b + c
  {
    hide U128.Value;
    third64 := new U128(0, a);
    AddWord(third64, b);
    AddWord(third64, c);
  }

  method SecondColumn(a: uint64, b: uint64, c: uint64, d: uint64, e: uint64) returns (second64: U128)
    ensures fresh(second64) && second64.Value() == a + b + c + d + e
  {
    hide U128.Value;
    second64 := ThirdColumn(a, b, c);
    AddWord(second64, d);
    AddWord(second64, e);
  }

  method FirstColumn(a: uint64, b: uint64, c: uint64, d: uint64, e: uint64, f: uint64, g: uint64)
    returns (first64: U128)
    ensures fresh(first64) && first64.Value() == a + b + c + d + e + f + g
  {
    hide U128.Value;
    first64 := SecondColumn(a, b, c, d, e);
    AddWord(first64, f);
    AddWord(first64, g);
  }

  /** The four columns of 64-bit halves; no column sum wraps. */
  method SumColumns64(p: array2<Wide>, ghost t: seq<uint64>, ghost b: seq<uint64>)
    returns (first64: U128, second64: U128, third64: U128, fourth64: U128)
    requires p.Length0 == 4 && p.Length1 == 4 && |t| == 4 && |b| == 4
    requires forall x, y :: 0 <= x < 4 && 0 <= y < 4 ==> IsProduct(p[x, y], t[3 - x], b[y])
    ensures fresh(first64) && fresh(second64) && fresh(third64) && fresh(fourth64)
    ensures [first64.Value(), second64.Value(), third64.Value(), fourth64.Value()]
      == ColumnSums(Table(t, b), TWO64)
  {
    hide U128.Value, NatProduct, Hi, Lo, Table;
    ghost var table := Table(t, b);
    assert Halves(p, table);
    fourth64 := new U128(0, p[0, 3].lower);
    third64 := ThirdColumn(p[0, 2].lower, p[0, 3].upper, p[1, 3].lower);
    first64, second64 := UpperColumns(p, table);
  }

  /** The array holds the two halves of each product of the table. */
  ghost predicate Halves(p: array2<Wide>, table: seq<seq<nat>>)
    requires p.Length0 == 4 && p.Length1 == 4 && |table| == 4 && forall i :: 0 <= i < 4 ==> |table[i]| == 4
    reads p
  {
    forall x, y :: 0 <= x < 4 && 0 <= y < 4 ==>
      p[x, y].upper == Hi(table[x][y], TWO64) && p[x, y].lower == Lo(table[x][y], TWO64)
  }

  method UpperColumns(p: array2<Wide>, ghost table: seq<seq<nat>>) returns (first64: U128, second64: U128)
    requires p.Length0 == 4 && p.Length1 == 4 && |table| == 4 && forall i :: 0 <= i < 4 ==> |table[i]| == 4
    requires Halves(p, table)
    ensures fresh(first64) && fresh(second64)
    ensures first64.Value() == ColumnSums(table, TWO64)[0] && second64.Value() == ColumnSums(table, TWO64)[1]
  {
    hide U128.Value, Hi, Lo;
    second64 := SecondColumn(p[0, 1].lower, p[0, 2].upper, p[1, 2].lower, p[1, 3].upper, p[2, 3].lower);
    first64 := FirstColumn(p[0, 0].lower, p[0, 1].upper, p[1, 1].lower, p[1, 2].upper,
                           p[2, 2].lower, p[2, 3].upper, p[3, 3].lower);
  }

  /** Adds the columns the way the code does: the carry of the third column goes
      into the top word instead of the word above. */
  method CombineColumns64(first64: U128, second64: U128, third64: U128, fourth64: U128, target: U256)
    requires target.Valid() && {first64, second64, third64, fourth64} !! {target.upper, target.lower}
    modifies target.upper, target.lower
    ensures target.Value() == Combined(first64.Value(), second64.Value(), third64.Value(), fourth64.Value())
  {
    hide U128.Value, U256.Value, Combined, Sum256;
    CombineSums(first64.Value(), second64.Value(), third64.Value(), fourth64.Value());
    var target1 := PlaceFirst(first64);
    var target2 := PlaceThird(third64);
    Add256(target1, target2, target);
    AddPlaced(second64, null, target, target2);
    AddPlaced(null, fourth64, target2, target);
  }

  /** Adds a number with at most one limb to another. */
  method AddPlaced(upper: U128?, lower: U128?, number: U256, target: U256)
    requires Apart(number, target) && number != target
    modifies target.upper, target.lower
    ensures target.Value() == Sum256(
      (if upper == null then 0 else old(upper.Value())) * TWO128 + (if lower == null then 0 else old(lower.Value())),
      old(number.Value()))
  {
    hide U128.Value, U256.Value, Sum256;
    var target1 := PlaceLimbs(upper, lower);
    Add256(target1, number, target);
  }

  ghost function Combined(first: nat, second: nat, third: nat, fourth: nat): nat {
    (Horner([first, second, third, fourth], TWO64)
      + third / TWO64 * (TWO64 * TWO128 - TWO128)) % TWO256
  }

  /** first64 shifted into the upper limb. */
  method PlaceFirst(first64: U128) returns (target1: U256)
    ensures fresh(target1) && fresh(target1.upper) && fresh(target1.lower) && target1.Valid()
    ensures target1.Value() == first64.Value() * TWO64 % TWO128 * TWO128
  {
    hide Pow2;
    Pow2Words();
    target1 := new U256();
    ShiftL(first64, 64, target1.upper);
  }

  /** third64's upper half in the top word, its lower half one word up. */
  method PlaceThird(third64: U128) returns (target2: U256)
    ensures fresh(target2) && fresh(target2.upper) && fresh(target2.lower) && target2.Valid()
    ensures target2.Value() == third64.Value() / TWO64 * TWO64 * TWO128 + third64.Value() * TWO64 % TWO128
  {
    hide U256.Value, Shl128;
    UpperWord(third64);
    WordUp(third64.Value());
    target2 := new U256();
    target2.upper.upper := third64.upper;
    assert target2.upper.Value() == third64.Value() / TWO64 * TWO64;
    ShiftL(third64, 64, target2.lower);
    TwoLimbs(target2);
  }

  lemma UpperWord(number: U128)
    ensures number.Value() / TWO64 == number.upper
  {
    DivModUnique(number.Value(), TWO64, number.upper, number.lower);
  }

  lemma WordUp(v: nat)
    ensures Shl128(v, 64) == v * TWO64 % TWO128
  {
    hide Pow2;
    Pow2Words();
  }

  /** A number with one limb copied from elsewhere and the other clear. */
  method PlaceLimbs(upper: U128?, lower: U128?) returns (target1: U256)
    ensures fresh(target1) && fresh(target1.upper) && fresh(target1.lower) && target1.Valid()
    ensures target1.Value() ==
      (if upper == null then 0 else upper.Value()) * TWO128 + (if lower == null then 0 else lower.Value())
  {
    target1 := new U256();
    if upper != null {
      Copy(target1.upper, upper);
    }
    if lower != null {
      Copy(target1.lower, lower);
    }
  }

  lemma CombineSums(first: nat, second: nat, third: nat, fourth: nat)
    requires second < TWO128 && fourth < TWO128
    ensures
      var v1 := first * TWO64 % TWO128 * TWO128;
      var v3 := third / TWO64 * TWO64 * TWO128 + third * TWO64 % TWO128;
      Sum256(fourth, Sum256(second * TWO128, Sum256(v1, v3))) == Combined(first, second, third, fourth)
  {
    hide Horner, Sum256;
    var c, lo := third / TWO64, third % TWO64;
    assert third == c * TWO64 + lo;
    DivModUnique(third * TWO64, TWO128, c, lo * TWO64);
    var f := first * TWO64;
    ReduceUpper(f, 0, TWO128);
    SumsTogether(f % TWO128 * TWO128, f * TWO128, c * TWO64 * TWO128 + lo * TWO64, second * TWO128, fourth);
    WeightedSum(first, second, c, lo, fourth);
  }

  lemma SumsTogether(a': int, a: int, b: int, c: int, d: int)
    requires a' == a % TWO256
    ensures Sum256(d, Sum256(c, Sum256(a', b))) == (a + b + c + d) % TWO256
  {
    ModAddInner(a, b, TWO256);
    ModAddInner(a + b, c, TWO256);
    ModAddInner(a + b + c, d, TWO256);
  }

  lemma WeightedSum(first: int, second: int, c: int, lo: int, fourth: int)
    ensures first * TWO64 * TWO128 + (c * TWO64 * TWO128 + lo * TWO64) + second * TWO128 + fourth
      == Horner([first, second, c * TWO64 + lo, fourth], TWO64) + c * (TWO64 * TWO128 - TWO128)
  {
  }

  /** Multiplication as written: off from the product modulo 2^256 by the carry
      of the third column, misplaced by one word. */
  method Mul256(number1: U256, number2: U256, target: U256)
    requires Apart(number1, target) && Apart(number2, target)
    modifies target.upper, target.lower
    ensures target.Value() == (old(number1.Value()) * old(number2.Value())
      + ThirdCarry(old(number1.Value()), old(number2.Value())) * (TWO64 * TWO128 - TWO128)) % TWO256
  {
    hide Horner, NatProduct, Split64, Combined, ColumnSums, Table, ThirdCarry, U256.Value, U128.Value;
    ghost var a, b := number1.Value(), number2.Value();
    var top := Words64(number1);
    var bottom := Words64(number2);
    ProductFromColumns(a, b);
    var p := WordProducts64(top, bottom);
    var first64, second64, third64, fourth64 := SumColumns64(p, top, bottom);
    CombineColumns64(first64, second64, third64, fourth64, target);
  }

  /** The words of a number, most significant first. */
  function Words64(number: U256): (w: seq<uint64>)
    reads number.upper, number.lower
    ensures |w| == 4 && w == Split64(number.Value())
  {
    hide Split64;
    var w := [number.upper.upper, number.upper.lower, number.lower.upper, number.lower.lower];
    SplitIsUnique(w, number.Value());
    w
  }

  lemma SplitIsUnique(w: seq<uint64>, v: nat)
    requires |w| == 4 && v < TWO256 && v == (w[0] * TWO64 + w[1]) * TWO128 + (w[2] * TWO64 + w[3])
    ensures Split64(v) == w
  {
    DivModUnique(v, TWO128, w[0] * TWO64 + w[1], w[2] * TWO64 + w[3]);
  }

  lemma ProductFromColumns(a: nat, b: nat)
    requires a < TWO256 && b < TWO256
    ensures
      var s := ColumnSums(Table(Split64(a), Split64(b)), TWO64);
      Combined(s[0], s[1], s[2], s[3])
        == (a * b + ThirdCarry(a, b) * (TWO64 * TWO128 - TWO128)) % TWO256
  {
    var s := ColumnSums(Table(Split64(a), Split64(b)), TWO64);
    var k := Columns(Split64(a), Split64(b), TWO64, TWO256);
    assert s == [s[0], s[1], s[2], s[3]];
    var extra := ThirdCarry(a, b) * (TWO64 * TWO128 - TWO128);
    ModAddMultiple(Horner(s, TWO64) + extra, k, TWO256);
  }

  /** The result is the product modulo 2^256 exactly when the third column does
      not carry. */
  lemma Mul256ExactIff(a: nat, b: nat)
    requires a < TWO256 && b < TWO256
    ensures (a * b + ThirdCarry(a, b) * (TWO64 * TWO128 - TWO128)) % TWO256 == a * b % TWO256
      <==> ThirdCarry(a, b) == 0
  {
    ThirdCarrySmall(a, b);
    MisplacedCarry(a * b, ThirdCarry(a, b));
  }

  lemma ThirdCarrySmall(a: nat, b: nat)
    requires a < TWO256 && b < TWO256
    ensures ThirdCarry(a, b) <= 2
  {
    hide NatProduct;
    var p := Table(Split64(a), Split64(b));
    assert forall x, y :: 0 <= x < 4 && 0 <= y < 4 ==> p[x][y] < TWO64 * TWO64 by {
      forall x, y | 0 <= x < 4 && 0 <= y < 4 ensures p[x][y] < TWO64 * TWO64 {
        WordProduct64(Split64(a)[3 - x], Split64(b)[y]);
      }
    }
  }

  lemma MisplacedCarry(product: int, c: nat)
    requires c <= 2
    ensures (product + c * (TWO64 * TWO128 - TWO128)) % TWO256 == product % TWO256 <==> c == 0
  {
    var e := c * (TWO64 * TWO128 - TWO128);
    if c > 0 {
      var r := product % TWO256;
      ModAddInner(product, e, TWO256);
      if r + e < TWO256 {
        DivModUnique(r + e, TWO256, 0, r + e);
      } else {
        DivModUnique(r + e, TWO256, 1, r + e - TWO256);
      }
    }
  }

  /** A product that comes out wrong: the square of 2^128 - 1. */
  lemma Mul256Counterexample()
    ensures
      var a := TWO128 - 1;
      && ThirdCarry(a, a) == 1
      && (a * a + ThirdCarry(a, a) * (TWO64 * TWO128 - TWO128)) % TWO256 != a * a % TWO256
  {
    hide ThirdCarry;
    OneCarries();
    Mul256ExactIff(TWO128 - 1, TWO128 - 1);
  }

  lemma OneCarries()
    ensures ThirdCarry(TWO128 - 1, TWO128 - 1) == 1
  {
    var a: nat := TWO128 - 1;
    var w: seq<uint64> := [0, 0, TWO64 - 1, TWO64 - 1];
    SplitIsUnique(w, a);
    var p := Table(w, w);
    var x: nat := (TWO64 - 1) * (TWO64 - 1);
    assert p[0][2] == x && p[0][3] == x && p[1][3] == x;
    DivModUnique(x, TWO64, TWO64 - 2, 1);
  }

  // ---- Division ----------------------------------------------------------------------------

  /** The number's limbs belong to none of the others. */
  ghost predicate Distinct4(a: U256, b: U256, c: U256, d: U256) {
    && a != b && a != c && a != d && b != c && b != d && c != d
    && Apart(a, b) && Apart(a, c) && Apart(a, d) && Apart(b, c) && Apart(b, d) && Apart(c, d)
  }

  /** The division loop proper, on 256 bits. */
  method DivideLoop256(ghost l: nat, ghost start: nat, r: U256,
                       copyd: U256, adder: U256, resDiv: U256, resMod: U256)
    requires Distinct4(copyd, adder, resDiv, resMod)
    requires r !in {copyd, adder, resDiv, resMod} && r.Value() > 0
    requires Apart(r, copyd) && Apart(r, adder) && Apart(r, resDiv) && Apart(r, resMod)
    requires Stage(l, r.Value(), start, 0, resDiv.Value(), resMod.Value(), copyd.Value(), adder.Value())
    modifies copyd.upper, copyd.lower, adder.upper, adder.lower
    modifies resDiv.upper, resDiv.lower, resMod.upper, resMod.lower
    ensures resDiv.Value() == l / r.Value() && resMod.Value() == l % r.Value()
  {
    hide U256.Value, U128.Value, Stage;
    ghost var n, m: nat, rv := start, 0, r.Value();
    while Gte256(resMod, r)
      invariant Stage(l, rv, n, m, resDiv.Value(), resMod.Value(), copyd.Value(), adder.Value())
      invariant r.Value() == rv
      decreases n
    {
      Running(l, rv, n, m, resDiv.Value(), resMod.Value(), copyd.Value(), adder.Value());
      m := DivideStep256(l, rv, n, m, copyd, adder, resDiv, resMod);
      n := n - 1;
    }
    Finish(l, rv, n, m, resDiv.Value(), resMod.Value(), copyd.Value(), adder.Value());
  }

  /** One round: subtract the shifted divisor when it fits, then step both down. */
  method DivideStep256(ghost l: nat, ghost rv: nat, ghost n: nat, ghost m: nat,
                       copyd: U256, adder: U256, resDiv: U256, resMod: U256) returns (ghost m': nat)
    requires Distinct4(copyd, adder, resDiv, resMod) && n > 0
    requires Stage(l, rv, n, m, resDiv.Value(), resMod.Value(), copyd.Value(), adder.Value())
    modifies copyd.upper, copyd.lower, adder.upper, adder.lower
    modifies resDiv.upper, resDiv.lower, resMod.upper, resMod.lower
    ensures Stage(l, rv, n - 1, m', resDiv.Value(), resMod.Value(), copyd.Value(), adder.Value())
  {
    hide U256.Value, U128.Value, Stage, BitOr, Difference256, Shr;
    ghost var quo: nat, rem: nat, c: nat, w: nat :=
      resDiv.Value(), resMod.Value(), copyd.Value(), adder.Value();
    if Gte256(resMod, copyd) {
      Take(l, rv, n, m, quo, rem, c, w);
      Minus256(resMod, copyd, resMod);
      Or256(resDiv, adder, resDiv);
      m' := 2 * m + 1;
    } else {
      Skip(l, rv, n, m, quo, rem, c, w);
      m' := 2 * m;
    }
    ShiftR256(copyd, 1, copyd);
    ShiftR256(adder, 1, adder);
  }

  /** Shift-and-subtract division. Either result may overwrite an operand. */
  method DivMod256(l: U256, r: U256, retDiv: U256, retMod: U256)
    requires r.Value() != 0 && retDiv != retMod
    requires Apart(l, r) && Apart(l, retDiv) && Apart(l, retMod)
    requires Apart(r, retDiv) && Apart(r, retMod) && Apart(retDiv, retMod)
    modifies retDiv.upper, retDiv.lower, retMod.upper, retMod.lower
    ensures retDiv.Value() == old(l.Value()) / old(r.Value())
    ensures retMod.Value() == old(l.Value()) % old(r.Value())
  {
    hide U256.Value, U128.Value, Stage;
    ghost var lv, rv := l.Value(), r.Value();
    if Gt256(r, l) {
      SmallDividend(lv, rv);
      Copy256(retMod, l);
      Clear256(retDiv);
    } else {
      var resDiv, resMod := LongDivision(l, r);
      Copy256(retDiv, resDiv);
      Copy256(retMod, resMod);
    }
  }

  /** The local variables of the division, all zero. */
  method FourNumbers() returns (a: U256, b: U256, c: U256, d: U256)
    ensures fresh({a, a.upper, a.lower, b, b.upper, b.lower, c, c.upper, c.lower, d, d.upper, d.lower})
    ensures Distinct4(a, b, c, d) && a.Value() == b.Value() == c.Value() == d.Value() == 0
  {
    hide U256.Value, U128.Value;
    a := new U256();
    b := new U256();
    c := new U256();
    d := new U256();
  }

  /** The division of a dividend that is not smaller, in fresh numbers. */
  method LongDivision(l: U256, r: U256) returns (resDiv: U256, resMod: U256)
    requires 0 < r.Value() <= l.Value() && l.Valid() && r.Valid()
    ensures fresh(resDiv) && fresh(resDiv.upper) && fresh(resDiv.lower)
    ensures fresh(resMod) && fresh(resMod.upper) && fresh(resMod.lower)
    ensures resDiv != resMod && Apart(resDiv, resMod)
    ensures resDiv.Value() == l.Value() / r.Value() && resMod.Value() == l.Value() % r.Value()
  {
    hide U256.Value, U128.Value, Stage;
    var copyd, adder;
    copyd, adder, resDiv, resMod := FourNumbers();
    ghost var n := AlignDivisor(l, r, copyd, adder, resMod);
    DivideLoop256(l.Value(), n, r, copyd, adder, resDiv, resMod);
  }

  /** Aligns the divisor with the dividend before the loop. */
  method AlignDivisor(l: U256, r: U256, copyd: U256, adder: U256, resMod: U256) returns (ghost n: nat)
    requires 0 < r.Value() <= l.Value()
    requires l.Valid() && r.Valid() && copyd != adder && copyd != resMod && adder != resMod
    requires Apart(copyd, adder) && Apart(copyd, resMod) && Apart(adder, resMod)
    requires l !in {copyd, adder, resMod} && Apart(l, copyd) && Apart(l, adder) && Apart(l, resMod)
    requires r !in {copyd, adder, resMod} && Apart(r, copyd) && Apart(r, adder) && Apart(r, resMod)
    modifies copyd.upper, copyd.lower, adder.upper, adder.lower, resMod.upper, resMod.lower
    ensures resMod.Value() == l.Value()
    ensures Stage(l.Value(), r.Value(), n, 0, 0, l.Value(), copyd.Value(), adder.Value())
  {
    hide U256.Value, U128.Value, Stage, Pow2, Shl256;
    ghost var lv, rv := l.Value(), r.Value();
    var one := One256();
    var diffBits := BitDifference(l, r);
    Copy256(resMod, l);
    ShiftL256(r, diffBits, copyd);
    ShiftL256(one, diffBits, adder);
    n := diffBits as int + (if copyd.Value() <= lv then 1 else 0);
    StepBack256(copyd, adder, resMod);
  }

  /** How far the divisor is shifted. */
  method BitDifference(l: U256, r: U256) returns (diffBits: uint32)
    requires 0 < r.Value() <= l.Value() && l.Valid() && r.Valid()
    ensures var c, w := Shl256(r.Value(), diffBits), Shl256(1, diffBits);
      if c > l.Value() then Stage(l.Value(), r.Value(), diffBits, 0, 0, l.Value(), c / 2, w / 2)
      else Stage(l.Value(), r.Value(), diffBits + 1, 0, 0, l.Value(), c, w)
  {
    hide U256.Value, U128.Value, Stage, Pow2, Shl256;
    var bitsL := Bits256(l);
    var bitsR := Bits256(r);
    diffBits := (bitsL - bitsR) % TWO32;
    ghost var _ := SetUp256(l.Value(), r.Value(), bitsL, bitsR);
  }

  /** Halves the aligned divisor and its weight if the divisor is too large. */
  method StepBack256(copyd: U256, adder: U256, resMod: U256)
    requires copyd != adder && copyd != resMod && adder != resMod
    requires Apart(copyd, adder) && Apart(copyd, resMod) && Apart(adder, resMod)
    modifies copyd.upper, copyd.lower, adder.upper, adder.lower
    ensures copyd.Value() ==
      if old(copyd.Value()) > resMod.Value() then old(copyd.Value()) / 2 else old(copyd.Value())
    ensures adder.Value() ==
      if old(copyd.Value()) > resMod.Value() then old(adder.Value()) / 2 else old(adder.Value())
  {
    hide U256.Value, U128.Value, Shr;
    if Gt256(copyd, resMod) {
      ShiftR256(copyd, 1, copyd);
      ShiftR256(adder, 1, adder);
    }
  }

  method One256() returns (one: U256)
    ensures one.Valid() && fresh(one) && fresh(one.upper) && fresh(one.lower)
    ensures one.Value() == 1
  {
    one := new U256();
    one.lower.lower := 1;
    assert one.upper.Value() == 0;
  }

  lemma SetUp256(l: nat, r: nat, bitsL: nat, bitsR: nat) returns (d: nat)
    requires 0 < r <= l < TWO256 && bitsL == BitLength(l) <= 256 && bitsR == BitLength(r)
    ensures d == (bitsL - bitsR) % TWO32
    ensures var c, w := Shl256(r, d), Shl256(1, d);
      if c > l then Stage(l, r, d, 0, 0, l, c / 2, w / 2) else Stage(l, r, d + 1, 0, 0, l, c, w)
  {
    Align(l, r);
    d := bitsL - bitsR;
    DivModUnique(d, TWO32, 0, d);
    AlignedFits256(l, r, d);
    Start(l, r, d, r * Pow2(d));
  }

  lemma AlignedFits256(l: nat, r: nat, d: nat)
    requires 0 < r <= l < TWO256 && d == BitLength(l) - BitLength(r) && BitLength(l) <= 256
    requires r * Pow2(d) < Pow2(BitLength(l))
    ensures r * Pow2(d) >= 0
    ensures Shl256(r, d) == r * Pow2(d) && Shl256(1, d) == Pow2(d)
  {
    hide Pow2;
    Pow2Word256();
    Pow2Mono(BitLength(l), 256);
    MulMono(1, r, Pow2(d));
    DivModUnique(r * Pow2(d), TWO256, 0, r * Pow2(d));
    DivModUnique(Pow2(d), TWO256, 0, Pow2(d));
  }
}
