/** Regrouping bits between bytes and five-bit symbols. */
module Regroup {
  import opened Words
  import opened Numerals

  // ---- Bits ------------------------------------------------------------------------

  /** The low w bits of v, most significant first. */
  function BitsOf(v: nat, w: nat): (b: seq<bool>)
    ensures |b| == w
    decreases w
  {
    if w == 0 then [] else BitsOf(v / 2, w - 1) + [v % 2 == 1]
  }

  /** The number a bit sequence stands for. */
  function Num(b: seq<bool>): (n: nat)
  {
    if b == [] then 0 else 2 * Num(b[..|b| - 1]) + (if b[|b| - 1] then 1 else 0)
  }

  /** All bits of a sequence of w-bit values. */
  function Flatten(xs: seq<nat>, w: nat): (b: seq<bool>)
  {
    if xs == [] then [] else Flatten(xs[..|xs| - 1], w) + BitsOf(xs[|xs| - 1], w)
  }

  lemma {:induction false} FlattenLength(xs: seq<nat>, w: nat)
    ensures |Flatten(xs, w)| == |xs| * w
  {
    if xs != [] {
      FlattenLength(xs[..|xs| - 1], w);
      Distribute(|xs| - 1, 1, w);
    }
  }

  lemma Widths()
    ensures Pow2(5) == 32 && Pow2(8) == 256
  {
    Pow2Add(4, 4);
  }

  function Falses(n: nat): (b: seq<bool>)
    ensures |b| == n && forall i :: 0 <= i < n ==> !b[i]
  {
    seq(n, _ => false)
  }

  ghost predicate AllFalse(b: seq<bool>) { forall i :: 0 <= i < |b| ==> !b[i] }

  lemma {:induction false} NumBound(b: seq<bool>)
    ensures Num(b) < Pow2(|b|)
  {
    if b != [] {
      NumBound(b[..|b| - 1]);
    }
  }

  lemma {:induction false} NumBits(v: nat, w: nat)
    requires v < Pow2(w)
    ensures Num(BitsOf(v, w)) == v
    decreases w
  {
    if w > 0 {
      NumBits(v / 2, w - 1);
      assert BitsOf(v, w)[..w - 1] == BitsOf(v / 2, w - 1);
    }
  }

  lemma {:induction false} BitsNum(b: seq<bool>)
    ensures BitsOf(Num(b), |b|) == b
  {
    if b != [] {
      BitsNum(b[..|b| - 1]);
      assert b == b[..|b| - 1] + [b[|b| - 1]];
    }
  }

  lemma {:induction false} NumConcat(a: seq<bool>, b: seq<bool>)
    ensures Num(a) * Pow2(|b|) >= 0
    ensures Num(a + b) == Num(a) * Pow2(|b|) + Num(b)
  {
    MulMono(0, Num(a), Pow2(|b|));
    if b == [] {
      assert a + b == a;
    } else {
      var last := |b| - 1;
      NumConcat(a, b[..last]);
      assert (a + b)[..|a + b| - 1] == a + b[..last];
      DoublePow2(Num(a), |b|);
    }
  }

  lemma {:induction false} NumZero(b: seq<bool>)
    ensures Num(b) == 0 <==> AllFalse(b)
  {
    if b != [] {
      NumZero(b[..|b| - 1]);
      assert b == b[..|b| - 1] + [b[|b| - 1]];
    }
  }

  lemma FlattenMore(xs: seq<nat>, v: nat, w: nat)
    ensures Flatten(xs + [v], w) == Flatten(xs, w) + BitsOf(v, w)
  {
    assert (xs + [v])[..|xs|] == xs;
  }

  lemma SameSplit<T>(a: seq<T>, x: seq<T>, b: seq<T>, y: seq<T>)
    requires |a| == |b| && a + x == b + y
    ensures a == b && x == y
  {
    assert (a + x)[..|a|] == a && (b + y)[..|a|] == b && (a + x)[|a|..] == x && (b + y)[|a|..] == y;
  }

  lemma {:induction false} FlattenInjective(xs: seq<nat>, ys: seq<nat>, w: nat)
    requires |xs| == |ys| && Flatten(xs, w) == Flatten(ys, w)
    requires forall i :: 0 <= i < |xs| ==> xs[i] < Pow2(w) && ys[i] < Pow2(w)
    ensures xs == ys
  {
    if xs != [] {
      var last := |xs| - 1;
      FlattenLength(xs[..last], w);
      FlattenLength(ys[..last], w);
      SameSplit(Flatten(xs[..last], w), BitsOf(xs[last], w), Flatten(ys[..last], w), BitsOf(ys[last], w));
      FlattenInjective(xs[..last], ys[..last], w);
      NumBits(xs[last], w);
      NumBits(ys[last], w);
      assert xs == xs[..last] + [xs[last]] && ys == ys[..last] + [ys[last]];
    }
  }

  // ---- The accumulator -----------------------------------------------------------------

  /** The 32-bit accumulator holds the pending bits in its low end. */
  ghost predicate Holds(val: nat, pending: seq<bool>) {
    val % Pow2(|pending|) == Num(pending)
  }

  /** val << n, reduced to 32 bits. */
  function Shl32(val: nat, n: nat): uint32 { val * Pow2(n) % TWO32 }

  /** Appending a value: shift in, or in. */
  lemma ShiftIn(val: nat, pending: seq<bool>, v: nat, w: nat)
    requires Holds(val, pending) && v < Pow2(w) && |pending| + w <= 32
    ensures Holds(Shl32(val, w) + v, pending + BitsOf(v, w))
    ensures |pending + BitsOf(v, w)| == |pending| + w
  {
    hide Num, Shl32, Pow2;
    var n := |pending|;
    NumBits(v, w);
    NumConcat(pending, BitsOf(v, w));
    ShlMod(val, n, w, v);
    NumBound(pending + BitsOf(v, w));
  }

  /** Wrapping to 32 bits does not touch the low n + w bits. */
  lemma ShlMod(val: nat, n: nat, w: nat, v: nat)
    requires n + w <= 32 && v < Pow2(w)
    ensures (Shl32(val, w) + v) % Pow2(n + w) == (val % Pow2(n)) * Pow2(w) + v
  {
    hide Pow2;
    Pow2Add(n, w);
    Pow2Words();
    Pow2Add(n + w, 32 - n - w);
    ShlModFactors(val, Pow2(n), Pow2(w), Pow2(32 - n - w), v);
  }

  lemma ShlModFactors(val: nat, p: nat, q: nat, r: nat, v: nat)
    requires p > 0 && q > 0 && p * q > 0 && p * q * r == TWO32 && v < q
    ensures (val * q % TWO32 + v) % (p * q) == val % p * q + v
  {
    var h, l := val / p, val % p;
    DivIdentity(val, p);
    Distribute(h * p, l, q);
    Associate(h, p, q);
    var t := val * q / TWO32;
    assert val * q % TWO32 == val * q - t * TWO32;
    Associate(t, r, p * q);
    DistributeMinus(h, t * r, p * q);
    MulMono(l, p - 1, q);
    MulMono(0, l, q);
    DistributeMinus(p, 1, q);
    DivModUnique(val * q % TWO32 + v, p * q, h - t * r, l * q + v);
  }

  /** Taking the first w pending bits: shift right and mask. */
  lemma ShiftOut(val: nat, pending: seq<bool>, w: nat)
    requires Holds(val, pending) && w <= |pending|
    ensures val / Pow2(|pending| - w) >= 0
    ensures val / Pow2(|pending| - w) % Pow2(w) == Num(pending[..w]) < Pow2(w)
    ensures Holds(val, pending[w..])
  {
    hide Num, Pow2;
    var n := |pending| - w;
    var a, b := pending[..w], pending[w..];
    assert pending == a + b;
    NumConcat(a, b);
    NumBound(a);
    NumBound(b);
    Pow2Add(w, n);
    ShiftOutFactors(val, Pow2(w), Pow2(n), Num(a), Num(b));
  }

  lemma ShiftOutFactors(val: nat, p: nat, q: nat, a: nat, b: nat)
    requires p > 0 && q > 0 && p * q > 0 && a < p && b < q && val % (p * q) == a * q + b
    ensures 0 <= val / q && val / q % p == a && val % q == b
  {
    var k := val / (p * q);
    DivIdentity(val, p * q);
    DivIdentity(val, q);
    Associate(k, p, q);
    Distribute(k * p, a, q);
    DivModUnique(val, q, k * p + a, b);
    DivModUnique(k * p + a, p, k, a);
  }

  /** The rest, moved up to a full group. */
  lemma PadOut(val: nat, pending: seq<bool>, w: nat)
    requires Holds(val, pending) && |pending| <= w <= 32
    ensures Shl32(val, w - |pending|) % Pow2(w) == Num(pending + Falses(w - |pending|)) < Pow2(w)
  {
    hide Num, Shl32, Pow2;
    var n := |pending|;
    NumConcat(pending, Falses(w - n));
    NumZero(Falses(w - n));
    NumBound(pending + Falses(w - n));
    ShlMod(val, n, w - n, 0);
  }

  // ---- convert_bits ------------------------------------------------------------------------

  /** Groups of w bits written so far and bits still pending make up the input. */
  ghost predicate Split(bits: seq<bool>, out: seq<nat>, w: nat, pending: seq<bool>) {
    && (forall i :: 0 <= i < |out| ==> out[i] < Pow2(w))
    && Flatten(out, w) + pending == bits
  }

  /** With padding: the output bits are the input bits and fewer than one
      group of zeros. */
  ghost predicate Padded(bits: seq<bool>, out: seq<nat>, w: nat) {
    exists k :: 0 <= k < w && Split(bits + Falses(k), out, w, [])
  }

  /** Moves all full groups from the accumulator to the output. */
  method Drain(out: array<uint8>, base: nat, outlen: nat, outbits: nat, val: uint32, bits: nat,
               ghost all: seq<bool>, ghost pending: seq<bool>)
    returns (outlen': nat, bits': nat, ghost pending': seq<bool>)
    requires 1 <= outbits <= 8 && bits == |pending| <= 32 && Holds(val, pending)
    requires base + outlen + Groups(bits, outbits) <= out.Length
    requires Split(all, out[base..base + outlen], outbits, pending)
    modifies out
    ensures base + outlen' <= out.Length && Split(all, out[base..base + outlen'], outbits, pending')
    ensures bits' == |pending'| < outbits && Holds(val, pending')
    ensures out[..base] == old(out[..base])
  {
    hide Num, Shl32, Holds, BitsOf, Flatten, Pow2, Split, Groups;
    outlen', bits', pending' := outlen, bits, pending;
    while bits' >= outbits
      invariant bits' == |pending'| <= 32 && Holds(val, pending')
      invariant base + outlen' + Groups(bits', outbits) <= out.Length
      invariant Split(all, out[base..base + outlen'], outbits, pending')
      invariant out[..base] == old(out[..base])
      decreases bits'
    {
      OneGroupLess(bits', outbits);
      bits' := bits' - outbits;
      var v := NextGroup(val, bits', outbits, all, out[base..base + outlen'], pending');
      ghost var before := out[base..base + outlen'];
      out[base + outlen'] := v;
      outlen' := outlen' + 1;
      assert out[base..base + outlen'] == before + [v];
      pending' := pending'[outbits..];
    }
  }

  /** The next full group: shift right and mask. */
  method NextGroup(val: uint32, bits: nat, outbits: nat,
                   ghost all: seq<bool>, ghost done: seq<nat>, ghost pending: seq<bool>)
    returns (v: uint8)
    requires 1 <= outbits <= 8 && |pending| == bits + outbits && Holds(val, pending)
    requires Split(all, done, outbits, pending)
    ensures Holds(val, pending[outbits..]) && Split(all, done + [v], outbits, pending[outbits..])
  {
    hide Num, Shl32, Holds, BitsOf, Flatten, Pow2, Split;
    ShiftOut(val, pending, outbits);
    SmallGroup(val, bits, outbits);
    v := val / Pow2(bits) % Pow2(outbits);
    GroupOut(all, done, outbits, pending, v);
  }

  /** Complete groups of w bits among n. */
  ghost function Groups(n: nat, w: nat): nat
    requires w > 0
  {
    DivIdentity(n, w);
    n / w
  }

  lemma OneGroupLess(n: nat, w: nat)
    requires 0 < w <= n
    ensures Groups(n, w) == Groups(n - w, w) + 1
  {
    DivIdentity(n - w, w);
    Distribute((n - w) / w, 1, w);
    DivModUnique(n, w, (n - w) / w + 1, (n - w) % w);
  }

  lemma SmallGroup(val: nat, n: nat, w: nat)
    requires w <= 8
    ensures 0 <= val / Pow2(n) % Pow2(w) < 256
  {
    hide Pow2;
    Widths();
    Pow2Mono(w, 8);
  }

  lemma GroupOut(all: seq<bool>, out: seq<nat>, w: nat, pending: seq<bool>, v: nat)
    requires Split(all, out, w, pending) && w <= |pending| && v == Num(pending[..w]) < Pow2(w)
    ensures Split(all, out + [v], w, pending[w..])
  {
    hide Num, BitsOf, Flatten, Pow2;
    FlattenMore(out, v, w);
    BitsNum(pending[..w]);
    assert pending == pending[..w] + pending[w..];
  }

  /** Without padding: what is left over, and whether it may be dropped. */
  ghost predicate Unpadded(bits: seq<bool>, out: seq<nat>, w: nat, inbits: nat, ok: bool) {
    exists rest ::
      && |rest| < w && Split(bits, out, w, rest)
      && (ok <==> AllFalse(rest) && |rest| < inbits)
  }

  /** Regroups inbits-bit values into outbits-bit values. */
  method ConvertBits(out: array<uint8>, base: nat, outbits: nat, input: seq<uint8>, inbits: nat, pad: bool)
    returns (ok: bool, outlen: nat)
    requires 1 <= outbits <= 8 && 1 <= inbits <= 8
    requires forall i :: 0 <= i < |input| ==> input[i] < Pow2(inbits)
    requires base <= out.Length && |input| * inbits <= (out.Length - base) * outbits
    modifies out
    ensures base + outlen <= out.Length && out[..base] == old(out[..base])
    ensures pad ==> ok && Padded(Flatten(input, inbits), out[base..base + outlen], outbits)
    ensures !pad ==> Unpadded(Flatten(input, inbits), out[base..base + outlen], outbits, inbits, ok)
  {
    hide Num, Shl32, Holds, BitsOf, Flatten, Pow2, Split, Groups, Padded, Unpadded, Falses;
    var val: uint32, bits := 0, 0;
    ghost var pending: seq<bool> := [];
    outlen := 0;
    StartSplit(input[..0], inbits, out[base..base], outbits);
    for i := 0 to |input|
      invariant bits == |pending| < outbits && Holds(val, pending)
      invariant base + outlen <= out.Length && out[..base] == old(out[..base])
      invariant Split(Flatten(input[..i], inbits), out[base..base + outlen], outbits, pending)
    {
      var v := input[i];
      ShiftIn(val, pending, v, inbits);
      AccumulatorFits(val, pending, v, inbits);
      val := Shl32(val, inbits) + v;
      bits := bits + inbits;
      MoreInput(input, i, inbits, out[base..base + outlen], outbits, pending);
      pending := pending + BitsOf(v, inbits);
      Room(input, i + 1, inbits, out[base..base + outlen], outbits, pending, out.Length - base);
      outlen, bits, pending := Drain(out, base, outlen, outbits, val, bits, Flatten(input[..i + 1], inbits), pending);
    }
    assert input[..|input|] == input;
    Room(input, |input|, inbits, out[base..base + outlen], outbits, pending, out.Length - base);
    ok, outlen := Flush(out, base, outlen, outbits, inbits, val, bits, pad, Flatten(input, inbits), pending);
  }

  /** What happens to the bits left over at the end. */
  method Flush(out: array<uint8>, base: nat, outlen: nat, outbits: nat, inbits: nat, val: uint32, bits: nat, pad: bool,
               ghost all: seq<bool>, ghost pending: seq<bool>)
    returns (ok: bool, outlen': nat)
    requires 1 <= outbits <= 8 && bits == |pending| < outbits && Holds(val, pending)
    requires base + outlen <= out.Length && (bits > 0 ==> base + outlen < out.Length)
    requires Split(all, out[base..base + outlen], outbits, pending)
    modifies out
    ensures base + outlen' <= out.Length && out[..base] == old(out[..base])
    ensures pad ==> ok && Padded(all, out[base..base + outlen'], outbits)
    ensures !pad ==> Unpadded(all, out[base..base + outlen'], outbits, inbits, ok)
  {
    hide Num, Shl32, Holds, BitsOf, Flatten, Pow2, Split, AllFalse, Padded;
    ghost var before := out[base..base + outlen];
    PadOut(val, pending, outbits);
    PendingZero(val, pending, outbits);
    SmallLast(val, outbits, outbits - bits);
    var last: uint8 := Shl32(val, outbits - bits) % Pow2(outbits);
    ok, outlen' := true, outlen;
    if pad {
      if bits != 0 {
        PadGroup(all, before, outbits, pending, last);
        out[base + outlen] := last;
        outlen' := outlen + 1;
        assert out[base..base + outlen'] == before + [last];
      } else {
        ExactGroups(all, before, outbits);
      }
    } else if last != 0 || bits >= inbits {
      ok := false;
    }
  }

  lemma StartSplit(input: seq<nat>, inbits: nat, out: seq<nat>, w: nat)
    requires input == [] && out == []
    ensures Split(Flatten(input, inbits), out, w, []) && Holds(0, [])
  {
  }

  lemma AccumulatorFits(val: nat, pending: seq<bool>, v: nat, w: nat)
    requires v < Pow2(w) && w <= 8
    ensures Shl32(val, w) + v < TWO32
  {
    hide Pow2;
    Pow2Words();
    Pow2Add(w, 32 - w);
    var p, q := Pow2(w), Pow2(32 - w);
    var k := val / q;
    DivIdentity(val, q);
    Distribute(k * q, val % q, p);
    Associate(k, q, p);
    MulMono(val % q, q - 1, p);
    MulMono(0, val % q, p);
    DistributeMinus(q, 1, p);
    DivModUnique(val * p, TWO32, k, val % q * p);
  }

  lemma MoreInput(input: seq<nat>, i: nat, inbits: nat, out: seq<nat>, w: nat, pending: seq<bool>)
    requires i < |input| && Split(Flatten(input[..i], inbits), out, w, pending)
    ensures Split(Flatten(input[..i + 1], inbits), out, w, pending + BitsOf(input[i], inbits))
  {
    hide BitsOf, Flatten, Pow2;
    assert input[..i + 1] == input[..i] + [input[i]];
    FlattenMore(input[..i], input[i], inbits);
  }

  /** The output buffer has room for every complete group, and for one more if
      bits are pending. */
  lemma Room(input: seq<nat>, i: nat, inbits: nat, out: seq<nat>, w: nat, pending: seq<bool>, cap: nat)
    requires 1 <= w && i <= |input| && |input| * inbits <= cap * w
    requires Split(Flatten(input[..i], inbits), out, w, pending)
    ensures |out| + Groups(|pending|, w) <= cap
    ensures pending != [] ==> |out| < cap
  {
    hide BitsOf, Flatten, Pow2;
    FlattenLength(input[..i], inbits);
    FlattenLength(out, w);
    MulMono(i, |input|, inbits);
    assert |out| * w + |pending| <= cap * w;
    DivIdentity(|pending|, w);
    Distribute(|out|, |pending| / w, w);
    if |out| + |pending| / w > cap {
      MulMono(cap + 1, |out| + |pending| / w, w);
      Distribute(cap, 1, w);
    }
    if pending != [] && |out| >= cap {
      MulMono(cap, |out|, w);
    }
  }

  lemma PendingZero(val: nat, pending: seq<bool>, w: nat)
    requires Holds(val, pending) && |pending| <= w <= 32
    requires Shl32(val, w - |pending|) % Pow2(w) == Num(pending + Falses(w - |pending|))
    ensures Shl32(val, w - |pending|) % Pow2(w) == 0 <==> AllFalse(pending)
  {
    hide Num, Shl32, Pow2;
    var padded := pending + Falses(w - |pending|);
    NumZero(padded);
    assert AllFalse(padded) <==> AllFalse(pending) by {
      assert forall i :: 0 <= i < |pending| ==> padded[i] == pending[i];
    }
  }

  lemma SmallLast(val: nat, w: nat, n: nat)
    requires w <= 8
    ensures 0 <= Shl32(val, n) % Pow2(w) < 256
  {
    hide Shl32, Pow2;
    Widths();
    Pow2Mono(w, 8);
  }

  lemma PadGroup(bits: seq<bool>, out: seq<nat>, w: nat, pending: seq<bool>, v: nat)
    requires Split(bits, out, w, pending) && 0 < |pending| < w && v == Num(pending + Falses(w - |pending|)) < Pow2(w)
    ensures Padded(bits, out + [v], w)
  {
    hide Num, BitsOf, Flatten, Pow2;
    var k := w - |pending|;
    FlattenMore(out, v, w);
    BitsNum(pending + Falses(k));
    assert Flatten(out, w) + (pending + Falses(k)) == bits + Falses(k);
    assert Split(bits + Falses(k), out + [v], w, []);
  }

  lemma ExactGroups(bits: seq<bool>, out: seq<nat>, w: nat)
    requires w > 0 && Split(bits, out, w, [])
    ensures Padded(bits, out, w)
  {
    assert bits + Falses(0) == bits;
    assert Split(bits + Falses(0), out, w, []);
  }

  // ---- Round trips -----------------------------------------------------------------------------

  ghost predicate Bytes(b: seq<nat>) { forall i :: 0 <= i < |b| ==> b[i] < 256 }

  /** Bytes to symbols with padding and back without: always accepted, and the
      identity, for any number of bytes. */
  lemma RegroupRoundTrip(bytes: seq<nat>, syms: seq<nat>, back: seq<nat>, ok: bool)
    requires Bytes(bytes) && Padded(Flatten(bytes, 8), syms, 5)
    requires Unpadded(Flatten(syms, 5), back, 8, 5, ok)
    ensures ok && back == bytes
  {
    hide Flatten, Pow2;
    var k :| 0 <= k < 5 && Split(Flatten(bytes, 8) + Falses(k), syms, 5, []);
    var rest :| |rest| < 8 && Split(Flatten(syms, 5), back, 8, rest) && (ok <==> AllFalse(rest) && |rest| < 5);
    FlattenLength(bytes, 8);
    FlattenLength(back, 8);
    assert Flatten(syms, 5) + [] == Flatten(syms, 5);
    assert Flatten(back, 8) + rest == Flatten(bytes, 8) + Falses(k);
    assert |back| == |bytes| && |rest| == k;
    SameSplit(Flatten(back, 8), rest, Flatten(bytes, 8), Falses(k));
    Widths();
    FlattenInjective(back, bytes, 8);
  }

  /** The bits of w-bit values stand for the number with those digits. */
  lemma {:induction false} FlattenValue(xs: seq<nat>, w: nat)
    requires forall i :: 0 <= i < |xs| ==> xs[i] < Pow2(w)
    ensures Num(Flatten(xs, w)) == Eval(xs, Pow2(w))
  {
    hide BitsOf, Pow2;
    if xs != [] {
      var last := |xs| - 1;
      FlattenValue(xs[..last], w);
      NumConcat(Flatten(xs[..last], w), BitsOf(xs[last], w));
      NumBits(xs[last], w);
    }
  }

  /** Bit sequences of one length that stand for one number are equal. */
  lemma SameNumber(a: seq<bool>, b: seq<bool>)
    requires |a| == |b| && Num(a) == Num(b)
    ensures a == b
  {
    hide Num, BitsOf;
    BitsNum(a);
    BitsNum(b);
  }

  /** Padded regrouping as arithmetic: the symbols are the digits to base 32 of the
      number with the bytes as digits to base 256, shifted left to the next
      multiple of five bits. */
  lemma PaddedValue(bytes: seq<nat>, syms: seq<nat>)
    requires Bytes(bytes)
    ensures Padded(Flatten(bytes, 8), syms, 5) <==>
      && (forall i :: 0 <= i < |syms| ==> syms[i] < 32)
      && |bytes| * 8 <= |syms| * 5 < |bytes| * 8 + 5
      && Eval(syms, 32) == Eval(bytes, 256) * Pow2(|syms| * 5 - |bytes| * 8)
  {
    hide Flatten, Pow2, Num, BitsOf, Eval;
    Widths();
    FlattenLength(bytes, 8);
    FlattenLength(syms, 5);
    FlattenValue(bytes, 8);
    assert Flatten(syms, 5) + [] == Flatten(syms, 5);
    if Padded(Flatten(bytes, 8), syms, 5) {
      var k :| 0 <= k < 5 && Split(Flatten(bytes, 8) + Falses(k), syms, 5, []);
      FlattenValue(syms, 5);
      ShiftedNumber(Flatten(bytes, 8), k);
      assert k == |syms| * 5 - |bytes| * 8;
    }
    if (forall i :: 0 <= i < |syms| ==> syms[i] < 32) && |bytes| * 8 <= |syms| * 5 < |bytes| * 8 + 5
      && Eval(syms, 32) == Eval(bytes, 256) * Pow2(|syms| * 5 - |bytes| * 8) {
      var k := |syms| * 5 - |bytes| * 8;
      FlattenValue(syms, 5);
      ShiftedNumber(Flatten(bytes, 8), k);
      SameNumber(Flatten(syms, 5), Flatten(bytes, 8) + Falses(k));
      assert Split(Flatten(bytes, 8) + Falses(k), syms, 5, []);
    }
  }

  lemma ShiftedNumber(a: seq<bool>, k: nat)
    ensures Num(a + Falses(k)) == Num(a) * Pow2(k)
  {
    hide Num, Pow2;
    NumConcat(a, Falses(k));
    NumZero(Falses(k));
  }

  /** The padded symbols are determined by the bytes. */
  lemma PaddedUnique(bytes: seq<nat>, s: seq<nat>, t: seq<nat>)
    requires Padded(Flatten(bytes, 8), s, 5) && Padded(Flatten(bytes, 8), t, 5)
    ensures s == t
  {
    hide Flatten, Split;
    var k :| 0 <= k < 5 && Split(Flatten(bytes, 8) + Falses(k), s, 5, []);
    var l :| 0 <= l < 5 && Split(Flatten(bytes, 8) + Falses(l), t, 5, []);
    SplitPadded(bytes, k, s);
    SplitPadded(bytes, l, t);
    OnePadding(|bytes|, k, |s|, l, |t|);
    FlattenInjective(s, t, 5);
  }

  lemma SplitPadded(bytes: seq<nat>, k: nat, s: seq<nat>)
    requires Split(Flatten(bytes, 8) + Falses(k), s, 5, [])
    ensures |bytes| * 8 + k == |s| * 5 && Flatten(s, 5) == Flatten(bytes, 8) + Falses(k)
    ensures forall i :: 0 <= i < |s| ==> s[i] < Pow2(5)
  {
    hide Flatten, Pow2;
    FlattenLength(bytes, 8);
    FlattenLength(s, 5);
    assert Flatten(s, 5) + [] == Flatten(s, 5);
  }

  lemma OnePadding(n: nat, k: nat, a: nat, l: nat, b: nat)
    requires n * 8 + k == a * 5 && n * 8 + l == b * 5 && k < 5 && l < 5
    ensures k == l
  {
  }

  /** Appending one zero byte and truncating gives the same symbols as padding,
      for 32 bytes. */
  lemma ZeroByteShortcut(key: seq<nat>, s: seq<nat>, ok: bool)
    requires |key| == 32
    requires Unpadded(Flatten(key + [0], 8), s, 5, 8, ok)
    ensures ok && |s| == 52 && Padded(Flatten(key, 8), s, 5)
  {
    hide Flatten, Pow2, BitsOf;
    var rest :| |rest| < 5 && Split(Flatten(key + [0], 8), s, 5, rest) && (ok <==> AllFalse(rest) && |rest| < 8);
    FlattenMore(key, 0, 8);
    FlattenLength(key, 8);
    FlattenLength(s, 5);
    ZeroByte();
    assert |s| == 52 && |rest| == 4;
    assert Falses(8) == Falses(4) + Falses(4);
    assert Flatten(s, 5) + rest == Flatten(key, 8) + Falses(4) + Falses(4);
    SameSplit(Flatten(s, 5), rest, Flatten(key, 8) + Falses(4), Falses(4));
    assert Split(Flatten(key, 8) + Falses(4), s, 5, []);
  }

  lemma ZeroByte()
    ensures BitsOf(0, 8) == Falses(8)
  {
    assert BitsOf(0, 4) == Falses(4);
    assert BitsOf(0, 6) == Falses(6);
    assert BitsOf(0, 8) == Falses(8);
  }

  /** The unpadded bytes and the verdict are determined by the symbols. */
  lemma UnpaddedUnique(syms: seq<nat>, p: seq<nat>, ok: bool, q: seq<nat>, ok': bool)
    requires Unpadded(Flatten(syms, 5), p, 8, 5, ok) && Unpadded(Flatten(syms, 5), q, 8, 5, ok')
    ensures p == q && ok == ok'
  {
    hide Flatten, Pow2;
    var r :| |r| < 8 && Split(Flatten(syms, 5), p, 8, r) && (ok <==> AllFalse(r) && |r| < 5);
    var s :| |s| < 8 && Split(Flatten(syms, 5), q, 8, s) && (ok' <==> AllFalse(s) && |s| < 5);
    FlattenLength(p, 8);
    FlattenLength(q, 8);
    assert |p| == |q|;
    SameSplit(Flatten(p, 8), r, Flatten(q, 8), s);
    FlattenInjective(p, q, 8);
  }
}
