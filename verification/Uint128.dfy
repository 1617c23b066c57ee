/** 128-bit unsigned numbers as two 64-bit limbs, written through target
    pointers. Targets may be the same object as an operand. */
module Uint128 {
  import opened Words
  import opened Limbs
  import opened SchoolBook
  import opened Division

  class U128 {
    var upper: uint64
    var lower: uint64

    constructor (u: uint64, l: uint64)
      ensures upper == u && lower == l && Value() == u * TWO64 + l
    {
      upper, lower := u, l;
    }

    ghost function Value(): (v: nat)
      reads this
      ensures v < TWO128
    {
      upper * TWO64 + lower
    }
  }

  // ---- Tests (pure) ------------------------------------------------------

  predicate Zero(number: U128)
    reads number
    ensures Zero(number) <==> number.Value() == 0
  {
    number.lower == 0 && number.upper == 0
  }

  predicate Equal(number1: U128, number2: U128)
    reads number1, number2
    ensures Equal(number1, number2) <==> number1.Value() == number2.Value()
  {
    number1.upper == number2.upper && number1.lower == number2.lower
  }

  predicate Gt(number1: U128, number2: U128)
    reads number1, number2
    ensures Gt(number1, number2) <==> number1.Value() > number2.Value()
  {
    if number1.upper == number2.upper then
      number1.lower > number2.lower
    else
      number1.upper > number2.upper
  }

  predicate Gte(number1: U128, number2: U128)
    reads number1, number2
    ensures Gte(number1, number2) <==> number1.Value() >= number2.Value()
  {
    Gt(number1, number2) || Equal(number1, number2)
  }

  // ---- Moves -------------------------------------------------------------

  method Copy(target: U128, number: U128)
    modifies target
    ensures target.Value() == old(number.Value())
    ensures target.upper == old(number.upper) && target.lower == old(number.lower)
  {
    target.upper := number.upper;
    target.lower := number.lower;
  }

  method Clear(target: U128)
    modifies target
    ensures target.Value() == 0 && target.upper == 0 && target.lower == 0
  {
    target.upper := 0;
    target.lower := 0;
  }

  // ---- Addition and subtraction ------------------------------------------

  function Carry(l1: uint64, l2: uint64): nat {
    if Add64(l1, l2) < l1 then 1 else 0
  }

  function Borrow(l1: uint64, l2: uint64): nat {
    if Sub64(l1, l2) > l1 then 1 else 0
  }

  /** Addition and subtraction reduced modulo 2^128. */
  ghost function Sum128(x: int, y: int): nat { (x + y) % TWO128 }

  ghost function Difference128(x: int, y: int): nat { (x - y) % TWO128 }

  method Add(number1: U128, number2: U128, target: U128)
    modifies target
    ensures target.Value() == Sum128(old(number1.Value()), old(number2.Value()))
  {
    AddLimbs(number1.upper, number1.lower, number2.upper, number2.lower, TWO64, Carry(number1.lower, number2.lower));
    target.upper := Add64(number1.upper + number2.upper, Carry(number1.lower, number2.lower));
    target.lower := Add64(number1.lower, number2.lower);
  }

  method Minus(number1: U128, number2: U128, target: U128)
    modifies target
    ensures target.Value() == Difference128(old(number1.Value()), old(number2.Value()))
    ensures old(number1.Value()) >= old(number2.Value()) ==>
      target.Value() == old(number1.Value()) - old(number2.Value())
  {
    hide Sub64, Borrow;
    MinusValue(number1.upper, number1.lower, number2.upper, number2.lower);
    NoBorrow(number1.Value(), number2.Value(), TWO128);
    target.upper := Sub64(number1.upper - number2.upper, Borrow(number1.lower, number2.lower));
    target.lower := Sub64(number1.lower, number2.lower);
  }

  /** The limbs the subtraction writes are the difference. */
  lemma MinusValue(u1: uint64, l1: uint64, u2: uint64, l2: uint64)
    ensures Sub64(u1 - u2, Borrow(l1, l2)) * TWO64 + Sub64(l1, l2)
      == (u1 * TWO64 + l1 - (u2 * TWO64 + l2)) % TWO128
  {
    MinusLimbs(u1, l1, u2, l2, TWO64, Borrow(l1, l2));
  }

  /** Nothing is borrowed from beyond the upper limb of the larger number. */
  lemma NoBorrow(x: nat, y: nat, m: nat)
    requires x < m
    ensures y <= x ==> (x - y) % m == x - y
  {
    if y <= x {
      DivModUnique(x - y, m, 0, x - y);
    }
  }

  method Or(number1: U128, number2: U128, target: U128)
    modifies target
    ensures target.Value() == BitOr(old(number1.Value()), old(number2.Value()))
  {
    hide BitOr;
    OrFits(number1.upper, number2.upper);
    OrFits(number1.lower, number2.lower);
    OrLimbs(number1.upper, number1.lower, number2.upper, number2.lower);
    target.upper := BitOr(number1.upper, number2.upper);
    target.lower := BitOr(number1.lower, number2.lower);
  }

  lemma OrFits(x: uint64, y: uint64)
    ensures BitOr(x, y) < TWO64
  {
    hide Pow2, BitOr;
    Pow2Words();
    BitOrBelow(x, y, 64);
  }

  lemma OrLimbs(u1: uint64, l1: uint64, u2: uint64, l2: uint64)
    ensures BitOr(u1 * TWO64 + l1, u2 * TWO64 + l2) == BitOr(u1, u2) * TWO64 + BitOr(l1, l2)
  {
    hide Pow2, BitOr;
    Pow2Words();
    BitOrLimbs(u1, l1, u2, l2, 64);
  }

  /** Left shift of a 128-bit value. */
  ghost function Shl128(v: nat, n: nat): nat {
    v * Pow2(n) % TWO128
  }

  /** Right shift of a value of any width. */
  ghost function Shr(v: nat, n: nat): (r: nat) {
    DivSmaller(v, Pow2(n));
    v / Pow2(n)
  }

  // ---- Shifts --------------------------------------------------------------

  lemma SplitWord(n: nat)
    requires n <= 64
    ensures Pow2(n) * Pow2(64 - n) == TWO64 && Pow2(n) <= TWO64
  {
    hide Pow2;
    Pow2Words();
    Pow2Add(n, 64 - n);
    Pow2Mono(n, 64);
  }

  /** Left shift by 0 < n < 64. */
  lemma ShlLimbs(u: uint64, l: uint64, n: nat)
    requires 0 < n < 64
    ensures Val(Add64(Shl64(u, n), Shr64(l, 64 - n)), Shl64(l, n), TWO64) == Shl128(Val(u, l, TWO64), n)
  {
    SplitWord(n);
    ShlWithin(u, l, Pow2(n), Pow2(64 - n), TWO64);
  }

  /** Right shift by 0 < n < 64. */
  lemma ShrLimbs(u: uint64, l: uint64, n: nat)
    requires 0 < n < 64
    ensures Val(Shr64(u, n), Add64(Shl64(u, 64 - n), Shr64(l, n)), TWO64) == Shr(Val(u, l, TWO64), n)
  {
    SplitWord(n);
    ShrWithin(u, l, Pow2(n), Pow2(64 - n), TWO64);
  }

  /** A shift by a whole limb or more keeps only the lower limb. */
  lemma ShlHighLimbs(u: uint64, l: uint64, n: nat)
    requires 64 <= n < 128
    ensures Val(Shl64(l, n - 64), 0, TWO64) == Shl128(Val(u, l, TWO64), n)
  {
    hide Pow2;
    Pow2Words();
    Pow2Add(n - 64, 64);
    ShlBeyond(u, l, Pow2(n - 64), TWO64);
  }

  lemma ShrHighLimbs(u: uint64, l: uint64, n: nat)
    requires 64 <= n < 128
    ensures Val(0, Shr64(u, n - 64), TWO64) == Shr(Val(u, l, TWO64), n)
  {
    hide Pow2;
    Pow2Words();
    Pow2Add(n - 64, 64);
    ShrBeyond(u, l, Pow2(n - 64), TWO64);
  }

  lemma ShlZero(v: nat)
    requires v < TWO128
    ensures Shl128(v, 0) == v
  {
    DivModUnique(v, TWO128, 0, v);
  }

  lemma ShlOut(v: nat, n: nat)
    requires n >= 128
    ensures Shl128(v, n) == 0
  {
    hide Pow2;
    Pow2Word128();
    Pow2Add(n - 128, 128);
    Associate(v, Pow2(n - 128), TWO128);
    ModAddMultiple(0, v * Pow2(n - 128), TWO128);
  }

  lemma ShrOut(v: nat, n: nat)
    requires n >= 128 && v < TWO128
    ensures Shr(v, n) == 0
  {
    hide Pow2;
    Pow2Word128();
    Pow2Mono(128, n);
    DivModUnique(v, Pow2(n), 0, v);
  }

  lemma ShlWhole(u: uint64, l: uint64)
    ensures Val(l, 0, TWO64) == Shl128(Val(u, l, TWO64), 64)
  {
    ShlHighLimbs(u, l, 64);
    DivModUnique(l, TWO64, 0, l);
  }

  /** The limbs each branch of the left shift writes are the shifted number. */
  lemma ShlResult(u: uint64, l: uint64, n: nat, u': uint64, l': uint64)
    requires n >= 128 ==> u' == 0 && l' == 0
    requires 64 < n < 128 ==> u' == Shl64(l, n - 64) && l' == 0
    requires n == 64 ==> u' == l && l' == 0
    requires 0 < n < 64 ==> u' == Add64(Shl64(u, n), Shr64(l, 64 - n)) && l' == Shl64(l, n)
    requires n == 0 ==> u' == u && l' == l
    ensures Val(u', l', TWO64) == Shl128(Val(u, l, TWO64), n)
  {
    if n >= 128 {
      ShlOut(Val(u, l, TWO64), n);
    } else if n == 64 {
      ShlWhole(u, l);
    } else if n > 64 {
      ShlHighLimbs(u, l, n);
    } else if n > 0 {
      ShlLimbs(u, l, n);
    } else {
      ShlZero(Val(u, l, TWO64));
    }
  }

  /** Left shift, reduced modulo 2^128; the target may be the operand. */
  method ShiftL(number: U128, value: uint32, target: U128)
    modifies target
    ensures target.Value() == Shl128(old(number.Value()), value)
  {
    hide Shl128, Shl64, Shr64, Add64;
    ghost var u, l := number.upper, number.lower;
    if value >= 128 {
      Clear(target);
    } else if value == 64 {
      target.upper := number.lower;
      target.lower := 0;
    } else if value == 0 {
      Copy(target, number);
    } else if value < 64 {
      target.upper := Add64(Shl64(number.upper, value), Shr64(number.lower, 64 - value));
      target.lower := Shl64(number.lower, value);
    } else {
      target.upper := Shl64(number.lower, value - 64);
      target.lower := 0;
    }
    ShlResult(u, l, value, target.upper, target.lower);
  }

  /** The limbs each branch of the right shift writes are the shifted number. */
  lemma ShrResult(u: uint64, l: uint64, n: nat, u': uint64, l': uint64)
    requires n >= 128 ==> u' == 0 && l' == 0
    requires 64 < n < 128 ==> u' == 0 && l' == Shr64(u, n - 64)
    requires n == 64 ==> u' == 0 && l' == u
    requires 0 < n < 64 ==> u' == Shr64(u, n) && l' == Add64(Shl64(u, 64 - n), Shr64(l, n))
    requires n == 0 ==> u' == u && l' == l
    ensures Val(u', l', TWO64) == Shr(Val(u, l, TWO64), n)
  {
    if n >= 128 {
      ShrOut(Val(u, l, TWO64), n);
    } else if n == 64 {
      assert Shr64(u, 0) == u;
      ShrHighLimbs(u, l, n);
    } else if n > 64 {
      ShrHighLimbs(u, l, n);
    } else if n > 0 {
      ShrLimbs(u, l, n);
    } else {
      assert Pow2(0) == 1;
    }
  }

  lemma ShrOne(v: nat)
    ensures Shr(v, 1) == v / 2
  {
    assert Pow2(1) == 2;
  }

  /** Right shift. In place, a shift of exactly one limb loses the number. */
  method ShiftR(number: U128, value: uint32, target: U128)
    modifies target
    ensures target.Value() ==
      if value == 64 && target == number then 0 else Shr(old(number.Value()), value)
    ensures value == 1 ==> target.Value() == old(number.Value()) / 2
  {
    hide Shr, Shl64, Shr64, Add64;
    ghost var u, l := number.upper, number.lower;
    ShrOne(number.Value());
    if value >= 128 {
      Clear(target);
    } else if value == 64 {
      target.upper := 0;
      target.lower := number.upper;
    } else if value == 0 {
      Copy(target, number);
    } else if value < 64 {
      var result := new U128(Shr64(number.upper, value),
                             Add64(Shl64(number.upper, 64 - value), Shr64(number.lower, value)));
      Copy(target, result);
    } else {
      target.lower := Shr64(number.upper, value - 64);
      target.upper := 0;
    }
    if value != 64 || target != number {
      ShrResult(u, l, value, target.upper, target.lower);
    }
  }

  /** The number of significant bits. */
  method Bits(number: U128) returns (result: uint32)
    ensures result == BitLength(number.Value()) && result <= 128
  {
    result := 0;
    if number.upper != 0 {
      BitsOfLimbs(number.upper, number.lower);
      result := 64;
      var up := number.upper;
      while up != 0
        invariant result + BitLength(up) == 64 + BitLength(number.upper)
      {
        up := up / 2;
        result := result + 1;
      }
    } else {
      WordBits(number.lower);
      var low := number.lower;
      while low != 0
        invariant result + BitLength(low) == BitLength(number.lower)
      {
        low := low / 2;
        result := result + 1;
      }
    }
  }

  lemma WordBits(w: uint64)
    ensures BitLength(w) <= 64
  {
    hide Pow2;
    Pow2Words();
    BitLengthBounds(w);
    if BitLength(w) > 64 {
      Pow2Mono(64, BitLength(w) - 1);
    }
  }

  lemma BitsOfLimbs(u: uint64, l: uint64)
    requires u > 0
    ensures BitLength(u * TWO64 + l) == BitLength(u) + 64 <= 128
  {
    hide Pow2;
    Pow2Words();
    BitLengthLimbs(u, l, 64);
    WordBits(u);
  }

  // ---- Multiplication --------------------------------------------------------

  function Split32(u: uint64, l: uint64): (w: seq<nat>)
    ensures |w| == 4 && forall i :: 0 <= i < 4 ==> w[i] < TWO32
    ensures Horner(w, TWO32) == Val(u, l, TWO64)
  {
    [u / TWO32, u % TWO32, l / TWO32, l % TWO32]
  }

  lemma WordProduct(x: nat, y: nat)
    requires x < TWO32 && y < TWO32
    ensures 0 <= x * y < TWO64 && Mul64(x, y) == x * y
  {
    MulMono(0, x, y);
    MulMono(x, TWO32, y);
    DivModUnique(x * y, TWO64, 0, x * y);
  }

  lemma Columns32(t: seq<nat>, b: seq<nat>)
    requires |t| == 4 && |b| == 4
    ensures Horner(t, TWO32) * Horner(b, TWO32) % TWO128
      == Horner(ColumnSums(Table(t, b), TWO32), TWO32) % TWO128
  {
    var k := Columns(t, b, TWO32, TWO128);
    ModAddMultiple(Horner(ColumnSums(Table(t, b), TWO32), TWO32), k, TWO128);
  }

  function Lo32(p: uint64): uint64 { Lo(p, TWO32) }

  function Hi32(p: uint64): (h: uint64)
    ensures h < TWO32
  {
    Hi(p, TWO32)
  }

  /** Product modulo 2^128; no column of 32-bit halves overflows 64 bits. */
  method Mul(number1: U128, number2: U128, target: U128)
    modifies target
    ensures target.Value() == old(number1.Value()) * old(number2.Value()) % TWO128
  {
    hide Horner, Split32, ColumnSums, Table;
    var top := Split32(number1.upper, number1.lower);
    var bottom := Split32(number2.upper, number2.lower);
    var p := WordProducts(top, bottom);
    Columns32(top, bottom);
    var first32, second32, third32, fourth32 := SumColumns32(p, Table(top, bottom));
    CombineColumns(first32, second32, third32, fourth32, target);
  }

  /** The four columns of 32-bit halves; no column sum wraps. */
  method SumColumns32(p: array2<uint64>, ghost table: seq<seq<nat>>)
    returns (first32: uint64, second32: uint64, third32: uint64, fourth32: uint64)
    requires p.Length0 == 4 && p.Length1 == 4 && |table| == 4 && forall x :: 0 <= x < 4 ==> |table[x]| == 4
    requires forall x, y :: 0 <= x < 4 && 0 <= y < 4 ==> p[x, y] == table[x][y]
    ensures [first32, second32, third32, fourth32] == ColumnSums(table, TWO32)
  {
    fourth32 := Lo32(p[0, 3]);
    third32 := Lo32(p[0, 2]) + Hi32(p[0, 3]);
    second32 := Lo32(p[0, 1]) + Hi32(p[0, 2]);
    first32 := Lo32(p[0, 0]) + Hi32(p[0, 1]);

    third32 := third32 + Lo32(p[1, 3]);
    second32 := second32 + Lo32(p[1, 2]) + Hi32(p[1, 3]);
    first32 := first32 + Lo32(p[1, 1]) + Hi32(p[1, 2]);

    second32 := second32 + Lo32(p[2, 3]);
    first32 := first32 + Lo32(p[2, 2]) + Hi32(p[2, 3]);

    first32 := first32 + Lo32(p[3, 3]);
  }

  /** The table of all word products; none of them wraps. */
  method WordProducts(top: seq<nat>, bottom: seq<nat>) returns (products: array2<uint64>)
    requires |top| == 4 && |bottom| == 4
    requires forall i :: 0 <= i < 4 ==> top[i] < TWO32 && bottom[i] < TWO32
    ensures fresh(products) && products.Length0 == 4 && products.Length1 == 4
    ensures forall x, y :: 0 <= x < 4 && 0 <= y < 4 ==> products[x, y] == Table(top, bottom)[x][y]
  {
    ghost var table := Table(top, bottom);
    forall x, y | 0 <= x < 4 && 0 <= y < 4 ensures table[3 - x][y] == Mul64(top[x], bottom[y]) {
      WordProduct(top[x], bottom[y]);
    }
    products := new uint64[4, 4];
    FillProducts(top, bottom, table, products);
  }

  method FillProducts(top: seq<nat>, bottom: seq<nat>, ghost table: seq<seq<nat>>, products: array2<uint64>)
    requires |top| == 4 && |bottom| == 4 && products.Length0 == 4 && products.Length1 == 4
    requires |table| == 4 && forall i :: 0 <= i < 4 ==> |table[i]| == 4
    requires forall x, y :: 0 <= x < 4 && 0 <= y < 4 ==> table[3 - x][y] == Mul64(top[x], bottom[y])
    modifies products
    ensures forall i, j :: 0 <= i < 4 && 0 <= j < 4 ==> products[i, j] == table[i][j]
  {
    var y := 3;
    while y > -1
      invariant -1 <= y <= 3
      invariant forall i, j :: 0 <= i < 4 && y < j < 4 ==> products[i, j] == table[i][j]
    {
      var x := 3;
      while x > -1
        invariant -1 <= x <= 3
        invariant forall i, j :: 0 <= i < 4 && y < j < 4 ==> products[i, j] == table[i][j]
        invariant forall i :: 0 <= i < 3 - x ==> products[i, y] == table[i][y]
      {
        products[3 - x, y] := Mul64(top[x], bottom[y]);
        x := x - 1;
      }
      y := y - 1;
    }
  }

  /** Adds the four columns, each of 32 bits more weight than the next. */
  method CombineColumns(first32: uint64, second32: uint64, third32: uint64, fourth32: uint64, target: U128)
    modifies target
    ensures target.Value() == Horner([first32, second32, third32, fourth32], TWO32) % TWO128
  {
    hide U128.Value, Horner, Sum128;
    var tmp := new U128(first32 * TWO32 % TWO64, 0);
    var tmp2 := new U128(third32 / TWO32, third32 * TWO32 % TWO64);
    Add(tmp, tmp2, target);
    tmp := new U128(second32, 0);
    Add(tmp, target, tmp2);
    tmp := new U128(0, fourth32);
    Add(tmp, tmp2, target);
    ColumnsAdded(first32, second32, third32, fourth32);
  }

  /** Adding the shifted columns one after the other gives their weighted sum. */
  lemma ColumnsAdded(first: nat, second: nat, third: nat, fourth: nat)
    ensures
      var v1 := first * TWO32 % TWO64 * TWO64;
      var v3 := third / TWO32 * TWO64 + third * TWO32 % TWO64;
      Sum128(fourth, Sum128(second * TWO64, Sum128(v1, v3))) == Horner([first, second, third, fourth], TWO32) % TWO128
  {
    var c, lo := third / TWO32, third % TWO32;
    DivModUnique(third * TWO32, TWO64, c, lo * TWO32);
    ReduceUpper(first * TWO32, 0, TWO64);
    var v1, v3 := first * TWO32 * TWO64, third * TWO32;
    ModAddInner(v1, v3, TWO128);
    ModAddInner(v1 + v3, second * TWO64, TWO128);
    ModAddInner(v1 + v3 + second * TWO64, fourth, TWO128);
  }

  // ---- Division --------------------------------------------------------------

  /** The division loop proper: subtract the shifted divisor when it fits,
      record its weight, and step both down until the remainder is below r. */
  method DivideLoop(ghost l: nat, ghost start: nat, r: U128,
                    copyd: U128, adder: U128, resDiv: U128, resMod: U128)
    requires copyd != adder && copyd != resDiv && copyd != resMod
    requires adder != resDiv && adder != resMod && resDiv != resMod
    requires r !in {copyd, adder, resDiv, resMod} && r.Value() > 0
    requires Stage(l, r.Value(), start, 0, resDiv.Value(), resMod.Value(), copyd.Value(), adder.Value())
    modifies copyd, adder, resDiv, resMod
    ensures resDiv.Value() == l / r.Value() && resMod.Value() == l % r.Value()
  {
    hide U128.Value, Stage, BitOr, Difference128, Shr;
    ghost var n, m: nat := start, 0;
    while Gte(resMod, r)
      invariant Stage(l, r.Value(), n, m, resDiv.Value(), resMod.Value(), copyd.Value(), adder.Value())
      decreases n
    {
      ghost var quo: nat, rem: nat, c: nat, w: nat :=
        resDiv.Value(), resMod.Value(), copyd.Value(), adder.Value();
      Running(l, r.Value(), n, m, quo, rem, c, w);
      if Gte(resMod, copyd) {
        Take(l, r.Value(), n, m, quo, rem, c, w);
        Minus(resMod, copyd, resMod);
        Or(resDiv, adder, resDiv);
        m := 2 * m + 1;
      } else {
        Skip(l, r.Value(), n, m, quo, rem, c, w);
        m := 2 * m;
      }
      ShiftR(copyd, 1, copyd);
      ShiftR(adder, 1, adder);
      n := n - 1;
    }
    Finish(l, r.Value(), n, m, resDiv.Value(), resMod.Value(), copyd.Value(), adder.Value());
  }

  /** Shift-and-subtract division. Either result may overwrite an operand. */
  method DivMod(l: U128, r: U128, retDiv: U128, retMod: U128)
    requires r.Value() != 0 && retDiv != retMod
    modifies retDiv, retMod
    ensures retDiv.Value() == old(l.Value()) / old(r.Value())
    ensures retMod.Value() == old(l.Value()) % old(r.Value())
  {
    hide Stage, U128.Value;
    ghost var lv, rv := l.Value(), r.Value();
    if Gt(r, l) {
      SmallDividend(lv, rv);
      Copy(retMod, l);
      Clear(retDiv);
    } else {
      var copyd := new U128(0, 0);
      var adder := new U128(0, 0);
      var resDiv := new U128(0, 0);
      var resMod := new U128(0, 0);
      ghost var n := AlignDivisor128(l, r, copyd, adder, resMod);
      DivideLoop(lv, n, r, copyd, adder, resDiv, resMod);
      Copy(retDiv, resDiv);
      Copy(retMod, resMod);
    }
  }

  /** Aligns the divisor with the dividend before the loop. */
  method AlignDivisor128(l: U128, r: U128, copyd: U128, adder: U128, resMod: U128) returns (ghost n: nat)
    requires 0 < r.Value() <= l.Value()
    requires {l, r} !! {copyd, adder, resMod} && copyd != adder && copyd != resMod && adder != resMod
    modifies copyd, adder, resMod
    ensures resMod.Value() == l.Value()
    ensures Stage(l.Value(), r.Value(), n, 0, 0, l.Value(), copyd.Value(), adder.Value())
  {
    hide Stage, Pow2, U128.Value, Shl128;
    ghost var lv, rv := l.Value(), r.Value();
    var one := new U128(0, 1);
    var bitsL := Bits(l);
    var bitsR := Bits(r);
    var diffBits: uint32 := (bitsL - bitsR) % TWO32;
    Copy(resMod, l);
    ghost var d := SetUp(lv, rv, bitsL, bitsR);
    ShiftL(r, diffBits, copyd);
    ShiftL(one, diffBits, adder);
    n := if copyd.Value() <= lv then d + 1 else d;
    if Gt(copyd, resMod) {
      ShiftR(copyd, 1, copyd);
      ShiftR(adder, 1, adder);
    }
  }

  /** Neither the aligned divisor nor its weight leaves 128 bits, and either
      the pair or its half starts the loop. */
  lemma SetUp(l: nat, r: nat, bitsL: nat, bitsR: nat) returns (d: nat)
    requires 0 < r <= l < TWO128 && bitsL == BitLength(l) <= 128 && bitsR == BitLength(r)
    ensures d == (bitsL - bitsR) % TWO32
    ensures var c, w := Shl128(r, d), Shl128(1, d);
      if c > l then Stage(l, r, d, 0, 0, l, c / 2, w / 2) else Stage(l, r, d + 1, 0, 0, l, c, w)
  {
    hide Stage, Pow2, BitLength;
    Align(l, r);
    d := bitsL - bitsR;
    DivModUnique(d, TWO32, 0, d);
    AlignedFits(l, r, d);
    Start(l, r, d, r * Pow2(d));
  }

  /** Neither the aligned divisor nor its weight leaves 128 bits. */
  lemma AlignedFits(l: nat, r: nat, d: nat)
    requires 0 < r <= l < TWO128 && d == BitLength(l) - BitLength(r) && BitLength(l) <= 128
    requires r * Pow2(d) < Pow2(BitLength(l))
    ensures r * Pow2(d) >= 0
    ensures Shl128(r, d) == r * Pow2(d) && Shl128(1, d) == Pow2(d)
  {
    hide Pow2, BitLength;
    Pow2Word128();
    Pow2Mono(BitLength(l), 128);
    MulMono(1, r, Pow2(d));
    DivModUnique(r * Pow2(d), TWO128, 0, r * Pow2(d));
    DivModUnique(Pow2(d), TWO128, 0, Pow2(d));
  }
}
