/** Schoolbook multiplication of four-word numbers in any word size w, up to
    multiples of w^4. The 128-bit product uses w = 2^32, the 256-bit one 2^64. */
module SchoolBook {
  import opened Words

  /** The number with words x, most significant first. */
  ghost function Horner(x: seq<int>, w: nat): int
    requires |x| == 4
  {
    ((x[0] * w + x[1]) * w + x[2]) * w + x[3]
  }

  function Lo(p: nat, w: nat): (l: nat)
    requires w > 0
    ensures l < w
  {
    p % w
  }

  function Hi(p: nat, w: nat): (h: nat)
    requires w > 0
    ensures p == h * w + Lo(p, w)
    ensures p < w * w ==> h < w
  {
    HiFits(p, w);
    p / w
  }

  lemma HiFits(p: nat, w: nat)
    requires w > 0
    ensures 0 <= p / w && p == p / w * w + p % w
    ensures p < w * w ==> p / w < w
  {
    if p / w >= w {
      MulMono(w, p / w, w);
    }
  }

  /** The product table: row x belongs to word 3 - x of the first factor. */
  ghost function Table(t: seq<nat>, b: seq<nat>): (p: seq<seq<nat>>)
    requires |t| == 4 && |b| == 4
    ensures |p| == 4 && forall i :: 0 <= i < 4 ==> |p[i]| == 4
    ensures forall x, y :: 0 <= x < 4 && 0 <= y < 4 ==> p[x][y] == NatProduct(t[3 - x], b[y])
  {
    seq(4, x requires 0 <= x < 4 => seq(4, y requires 0 <= y < 4 => NatProduct(t[3 - x], b[y])))
  }

  ghost function NatProduct(x: nat, y: nat): (p: nat)
    ensures p == x * y
  {
    MulMono(0, x, y);
    x * y
  }

  /** The four column sums, most significant first: each product gives its low
      half to its own column and its high half to the next one up. */
  ghost function ColumnSums(p: seq<seq<nat>>, w: nat): (c: seq<int>)
    requires w > 0 && |p| == 4 && forall i :: 0 <= i < 4 ==> |p[i]| == 4
    ensures |c| == 4
  {
    [Lo(p[0][0], w) + Hi(p[0][1], w) + Lo(p[1][1], w) + Hi(p[1][2], w) + Lo(p[2][2], w) + Hi(p[2][3], w)
       + Lo(p[3][3], w),
     Lo(p[0][1], w) + Hi(p[0][2], w) + Lo(p[1][2], w) + Hi(p[1][3], w) + Lo(p[2][3], w),
     Lo(p[0][2], w) + Hi(p[0][3], w) + Lo(p[1][3], w),
     Lo(p[0][3], w)]
  }

  // ---- Horner algebra ---------------------------------------------------------

  lemma ScaleStep(k: int, x: int, y: int, w: nat)
    ensures k * (x * w + y) == k * x * w + k * y
  {
    Distribute(x * w, y, k);
    Associate(k, x, w);
  }

  lemma Scale(k: int, x: seq<int>, w: nat)
    requires |x| == 4
    ensures k * Horner(x, w) == Horner([k * x[0], k * x[1], k * x[2], k * x[3]], w)
  {
    var h2 := x[0] * w + x[1];
    var h3 := h2 * w + x[2];
    ScaleStep(k, x[0], x[1], w);
    ScaleStep(k, h2, x[2], w);
    ScaleStep(k, h3, x[3], w);
  }

  lemma Sum(x: seq<int>, y: seq<int>, w: nat)
    requires |x| == 4 && |y| == 4
    ensures Horner(x, w) + Horner(y, w) == Horner([x[0] + y[0], x[1] + y[1], x[2] + y[2], x[3] + y[3]], w)
  {
    var x2, y2 := x[0] * w + x[1], y[0] * w + y[1];
    var x3, y3 := x2 * w + x[2], y2 * w + y[2];
    Distribute(x[0], y[0], w);
    Distribute(x2, y2, w);
    Distribute(x3, y3, w);
  }

  /** Moving every word up one place pushes the top word out. */
  lemma Shift(x: seq<int>, w: nat, w4: nat)
    requires |x| == 4 && w4 == w * w * w * w
    ensures Horner(x, w) * w == x[0] * w4 + Horner([x[1], x[2], x[3], 0], w)
  {
    var y2 := x[1] * w + x[2];
    var y3 := y2 * w + x[3];
    var a := x[0] * w;
    Distribute(a * w, y2, w);
    assert a * w + x[1] * w == (a + x[1]) * w by { Distribute(a, x[1], w); }
    Distribute(a * w * w, y3, w);
    Associate(x[0], w, w);
    Associate(x[0], w * w, w);
    Associate(x[0], w * w * w, w);
  }

  /** One more word of the first factor. */
  lemma NextRow(q: int, beyond: int, s: seq<int>, row: seq<int>, w: nat, w4: nat) returns (s': seq<int>)
    requires |s| == 4 && |row| == 4 && w4 == w * w * w * w
    requires q == beyond * w4 + Horner(s, w)
    ensures s' == [s[1] + row[0], s[2] + row[1], s[3] + row[2], row[3]]
    ensures q * w + Horner(row, w) == (beyond * w + s[0]) * w4 + Horner(s', w)
  {
    s' := [s[1] + row[0], s[2] + row[1], s[3] + row[2], row[3]];
    Shift(s, w, w4);
    Sum([s[1], s[2], s[3], 0], row, w);
    Distribute(beyond * w4, Horner(s, w), w);
    Associate(beyond, w4, w);
    Distribute(beyond * w, s[0], w4);
  }

  /** The product is the sum of the ten word products below w^4, plus a
      multiple of w^4. */
  lemma Expand(t: seq<int>, b: seq<int>, w: nat, w4: nat) returns (beyond: int)
    requires |t| == 4 && |b| == 4 && w4 == w * w * w * w
    ensures Horner(t, w) * Horner(b, w) == beyond * w4
      + Horner([t[3] * b[0] + t[2] * b[1] + t[1] * b[2] + t[0] * b[3],
                t[3] * b[1] + t[2] * b[2] + t[1] * b[3],
                t[3] * b[2] + t[2] * b[3],
                t[3] * b[3]], w)
  {
    var bv := Horner(b, w);
    Scale(bv, t, w);
    Scale(t[0], b, w);
    Scale(t[1], b, w);
    Scale(t[2], b, w);
    Scale(t[3], b, w);
    var r0 := [t[0] * b[0], t[0] * b[1], t[0] * b[2], t[0] * b[3]];
    var r1 := [t[1] * b[0], t[1] * b[1], t[1] * b[2], t[1] * b[3]];
    var r2 := [t[2] * b[0], t[2] * b[1], t[2] * b[2], t[2] * b[3]];
    var r3 := [t[3] * b[0], t[3] * b[1], t[3] * b[2], t[3] * b[3]];
    var q0 := bv * t[0];
    var q1 := q0 * w + bv * t[1];
    var q2 := q1 * w + bv * t[2];
    var s1 := NextRow(q0, 0, r0, r1, w, w4);
    var k1 := 0 * w + r0[0];
    var s2 := NextRow(q1, k1, s1, r2, w, w4);
    var k2 := k1 * w + s1[0];
    var s3 := NextRow(q2, k2, s2, r3, w, w4);
    beyond := k2 * w + s2[0];
  }

  // ---- Halving the products -------------------------------------------------------

  lemma CarryUp(x: seq<int>, h: int, w: nat, w4: nat)
    requires |x| == 4 && w4 == w * w * w * w
    ensures Horner([x[0], x[1], x[2], x[3] + h * w], w) == Horner([x[0], x[1], x[2] + h, x[3]], w)
    ensures Horner([x[0], x[1], x[2] + h * w, x[3]], w) == Horner([x[0], x[1] + h, x[2], x[3]], w)
    ensures Horner([x[0], x[1] + h * w, x[2], x[3]], w) == Horner([x[0] + h, x[1], x[2], x[3]], w)
    ensures Horner([x[0] + h * w, x[1], x[2], x[3]], w) == Horner(x, w) + h * w4
  {
    var h2 := x[0] * w + x[1];
    var h3 := h2 * w + x[2];
    Distribute(h3, h, w);
    Distribute(h2, h, w);
    Distribute(x[0], h, w);
    Distribute(x[0], h * w, w);
    Distribute(h2, h * w * w, w);
    Distribute(h3, h * w * w * w, w);
    Associate(h, w, w);
    Associate(h, w * w, w);
    Associate(h, w * w * w, w);
  }

  /** Splitting products into halves only drops multiples of w^4. */
  lemma SplitColumns(p: seq<seq<nat>>, w: nat, w4: nat)
    requires w > 0 && w4 == w * w * w * w
    requires |p| == 4 && forall i :: 0 <= i < 4 ==> |p[i]| == 4
    ensures Horner([p[0][0] + p[1][1] + p[2][2] + p[3][3], p[0][1] + p[1][2] + p[2][3], p[0][2] + p[1][3], p[0][3]], w)
      == Horner(ColumnSums(p, w), w) + (Hi(p[0][0], w) + Hi(p[1][1], w) + Hi(p[2][2], w) + Hi(p[3][3], w)) * w4
  {
    var h0 := Hi(p[0][0], w) + Hi(p[1][1], w) + Hi(p[2][2], w) + Hi(p[3][3], w);
    var h1 := Hi(p[0][1], w) + Hi(p[1][2], w) + Hi(p[2][3], w);
    var h2 := Hi(p[0][2], w) + Hi(p[1][3], w);
    var h3 := Hi(p[0][3], w);
    var l0 := Lo(p[0][0], w) + Lo(p[1][1], w) + Lo(p[2][2], w) + Lo(p[3][3], w);
    var l1 := Lo(p[0][1], w) + Lo(p[1][2], w) + Lo(p[2][3], w);
    var l2 := Lo(p[0][2], w) + Lo(p[1][3], w);
    var l3 := Lo(p[0][3], w);
    DistributeFour(Hi(p[0][0], w), Hi(p[1][1], w), Hi(p[2][2], w), Hi(p[3][3], w), w);
    DistributeFour(Hi(p[0][1], w), Hi(p[1][2], w), Hi(p[2][3], w), 0, w);
    DistributeFour(Hi(p[0][2], w), Hi(p[1][3], w), 0, 0, w);
    CarryColumns(l0, h0, l1, h1, l2, h2, l3, h3, w, w4);
  }

  lemma DistributeFour(a: int, b: int, c: int, d: int, w: nat)
    ensures (a + b + c + d) * w == a * w + b * w + c * w + d * w
  {
    Distribute(a + b + c, d, w);
    Distribute(a + b, c, w);
    Distribute(a, b, w);
  }

  lemma CarryColumns(l0: int, h0: int, l1: int, h1: int, l2: int, h2: int, l3: int, h3: int, w: nat, w4: nat)
    requires w4 == w * w * w * w
    ensures Horner([l0 + h0 * w, l1 + h1 * w, l2 + h2 * w, l3 + h3 * w], w)
      == Horner([l0 + h1, l1 + h2, l2 + h3, l3], w) + h0 * w4
  {
    CarryUp([l0 + h0 * w, l1 + h1 * w, l2 + h2 * w, l3], h3, w, w4);
    CarryUp([l0 + h0 * w, l1 + h1 * w, l2 + h3, l3], h2, w, w4);
    CarryUp([l0 + h0 * w, l1 + h2, l2 + h3, l3], h1, w, w4);
    CarryUp([l0 + h1, l1 + h2, l2 + h3, l3], h0, w, w4);
  }

  /** The columns hold the product modulo w^4. */
  lemma Columns(t: seq<nat>, b: seq<nat>, w: nat, w4: nat) returns (k: int)
    requires w > 0 && w4 == w * w * w * w && |t| == 4 && |b| == 4
    ensures Horner(t, w) * Horner(b, w) == Horner(ColumnSums(Table(t, b), w), w) + k * w4
  {
    var p := Table(t, b);
    var beyond := Expand(t, b, w, w4);
    SplitColumns(p, w, w4);
    var top := Hi(p[0][0], w) + Hi(p[1][1], w) + Hi(p[2][2], w) + Hi(p[3][3], w);
    k := beyond + top;
    Distribute(beyond, top, w4);
  }
}
