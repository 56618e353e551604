/**
  * The quantised split angle of CELT (section 4.3.4.3 of RFC 6716): how `compute_theta` maps an angle to an
  * interval of the range coder, and back from any point of that interval.
  */
module SplitAngle {
  import opened Bytes
  import opened CeltMath

  // ----- integer square root (mathops.c)

  /** `EC_ILOG`: the number of bits of a positive number. */
  function Ilog(v: nat): (l: nat)
    requires v > 0
    ensures l >= 1
  {
    if v == 1 then 1 else 1 + Ilog(v / 2)
  }

  lemma {:induction false} IlogBound(v: nat)
    requires v > 0
    ensures Pow2(Ilog(v) - 1) <= v < Pow2(Ilog(v))
  {
    if v > 1 {
      IlogBound(v / 2);
    }
  }

  lemma {:induction false} Pow2Squared(k: nat)
    ensures Pow2(k) * Pow2(k) == Pow2(2 * k)
    decreases k
  {
    if k > 0 {
      var p := Pow2(k - 1);
      Pow2Squared(k - 1);
      assert Pow2(2 * k) == 2 * Pow2(2 * k - 1) == 4 * Pow2(2 * (k - 1));
      assert (2 * p) * (2 * p) == 4 * (p * p);
    }
  }

  lemma {:induction false} Pow2Grows(j: nat, k: nat)
    requires j <= k
    ensures Pow2(j) <= Pow2(k)
    decreases k
  {
    if j < k {
      Pow2Grows(j, k - 1);
    }
  }

  lemma Pow2Of32()
    ensures Pow2(15) == 0x8000 && Pow2(32) == 0x1_0000_0000
  {
    Pow2Of8();
    assert Pow2(10) == 0x400;
    assert Pow2(12) == 0x1000;
    assert Pow2(14) == 0x4000;
    assert Pow2(16) == 0x1_0000;
    Pow2Squared(16);
  }

  ghost predicate IsSqrt(v: nat, r: nat) { r * r <= v < (r + 1) * (r + 1) }

  /** The first trial bit is large enough for the result to be found below twice its value. */
  lemma FirstBit(v: nat, bshift: nat)
    requires v > 0 && bshift == (Ilog(v) - 1) / 2
    ensures v < (2 * Pow2(bshift)) * (2 * Pow2(bshift))
    ensures v < 0x1_0000_0000 ==> 2 * Pow2(bshift) <= 0x1_0000
  {
    IlogBound(v);
    Pow2Of32();
    if v < 0x1_0000_0000 {
      if Ilog(v) > 32 {
        Pow2Grows(32, Ilog(v) - 1);
      }
      Pow2Grows(bshift, 15);
    }
    assert Pow2(bshift + 1) == 2 * Pow2(bshift);
    Pow2Squared(bshift + 1);
    Pow2Grows(Ilog(v), 2 * (bshift + 1));
  }

  /** What one trial of bit `b` on top of `g` decides. */
  lemma TrialBit(g: nat, b: nat)
    requires b > 0
    ensures (2 * g + b) * b == (g + b) * (g + b) - g * g
    ensures (g + 2 * b) * (g + 2 * b) == (g + b + b) * (g + b + b)
    ensures g + 2 * b <= 0x1_0000 ==> (2 * g + b) * b < 0x1_0000_0000
  {
    if g + 2 * b <= 0x1_0000 {
      MulMono(2 * g + b, 0x2_0000, b);
      SquareMono(g + b, 0xFFFF);
    }
  }

  lemma MulMono(a: nat, b: nat, c: nat)
    requires a <= b
    ensures a * c <= b * c
  {
    assert b * c == a * c + (b - a) * c;
  }

  lemma SquareMono(a: nat, b: nat)
    requires a <= b
    ensures a * a <= b * b
  {
    MulMono(a, b, a);
    MulMono(a, b, b);
  }

  /** `isqrt32`, bit by bit from the top. */
  method Isqrt32(v: nat) returns (g: nat)
    requires 0 < v < 0x1_0000_0000
    ensures IsSqrt(v, g)
  {
    var val: nat := v;
    g := 0;
    var bshift: int := (Ilog(v) - 1) / 2;
    var b: nat := Pow2(bshift);
    FirstBit(v, bshift);
    while true
      invariant 0 <= bshift && b == Pow2(bshift)
      invariant g + 2 * b <= 0x1_0000       // nothing wraps around in 32 bits
      invariant g * g <= v && val == v - g * g && v < (g + 2 * b) * (g + 2 * b)
      decreases bshift
    {
      var t := (2 * g + b) * b;            // ((g << 1) + b) << bshift
      TrialBit(g, b);
      assert t < 0x1_0000_0000;
      if t <= val {
        g := g + b;
        val := val - t;
      }
      assert g * g <= v && val == v - g * g && v < (g + b) * (g + b);
      bshift := bshift - 1;
      if bshift < 0 {
        assert b == 1;
        return;
      }
      assert b == 2 * Pow2(bshift);
      b := b / 2;
    }
  }

  // ----- the resolution of the angle

  const EXP2_TABLE8: seq<nat> := [16384, 17866, 19483, 21247, 23170, 25267, 27554, 30048]

  /** C division: rounds toward zero, so that what remains has the sign of `a`. */
  function Quotient(a: int, b: int): (q: int)
    requires b > 0
    ensures -b < a - q * b < b && (a >= 0 ==> a - q * b >= 0) && (a <= 0 ==> a - q * b <= 0)
  {
    if a >= 0 then a / b else -(-a / b)
  }

  predicate ValidQn(qn: nat) { qn == 1 || (2 <= qn <= 256 && qn % 2 == 0) }

  /** The shifts of `compute_qn`: `qb` is eight times the binary logarithm of the resolution. */
  function Rounded(qb: nat): nat
    requires 4 <= qb <= 64
  {
    (EXP2_TABLE8[qb % 8] / Pow2(14 - qb / 8) + 1) / 2 * 2
  }

  function Eighth(x: nat): nat {
    var square := x * x;
    var fourth := square * square;
    fourth * fourth
  }

  /** `qn` is the even number nearest to the eighth root of 2^qb, or to put it differently to 2^(qb/8). */
  predicate Nearest(qn: nat, qb: nat) {
    2 <= qn <= 256 && qn % 2 == 0 && Eighth(qn - 1) <= Pow2(qb) < Eighth(qn + 1)
  }

  /** The bits for an angle, in eighths: 64 at most, an even share at most, and 32 and a pulse are left for the side. */
  function AngleBits(N: nat, b: int, offset: int, pulseCap: int, stereo: bool): (qb: int)
    requires N >= 1
    ensures var N2 := if stereo && N == 2 then 2 else 2 * N - 1;
            var share, rest := Quotient(b + N2 * offset, N2), b - pulseCap - 32;
            qb <= 64 && qb <= share && qb <= rest && (qb == 64 || qb == share || qb == rest)
  {
    var N2 := 2 * N - 1 - if stereo && N == 2 then 1 else 0;
    Min(64, Min(b - pulseCap - 32, Quotient(b + N2 * offset, N2)))
  }

  function ComputeQn(N: nat, b: int, offset: int, pulseCap: int, stereo: bool): (qn: nat)
    requires N >= 1
    ensures ValidQn(qn)
    ensures var qb := AngleBits(N, b, offset, pulseCap, stereo); if qb < 4 then qn == 1 else Nearest(qn, qb)
  {
    var qb := AngleBits(N, b, offset, pulseCap, stereo);
    if qb < 4 then 1
    else
      RoundedIsNearest(qb);
      Rounded(qb)
  }

  /** No other number is: below it and above it the neighbours take over. */
  lemma NearestIsUnique(a: nat, b: nat, qb: nat)
    requires Nearest(a, qb) && Nearest(b, qb)
    ensures a == b
  {
    hide Eighth;
    if a < b {
      EighthGrows(a + 1, b - 1);
    } else if b < a {
      EighthGrows(b + 1, a - 1);
    }
  }

  lemma EighthGrows(a: nat, b: nat)
    requires a <= b
    ensures Eighth(a) <= Eighth(b)
  {
    SquareMono(a, b);
    SquareMono(a * a, b * b);
    SquareMono(a * a * (a * a), b * b * (b * b));
  }

  lemma SquareOfProduct(a: nat, b: nat)
    ensures a * b * (a * b) == a * a * (b * b)
  {
    assert a * b * (a * b) == a * (b * (a * b)) == a * (a * (b * b));
  }

  lemma EighthOfProduct(a: nat, b: nat)
    ensures Eighth(a * b) == Eighth(a) * Eighth(b)
  {
    SquareOfProduct(a, b);
    SquareOfProduct(a * a, b * b);
    SquareOfProduct(a * a * (a * a), b * b * (b * b));
  }

  lemma EighthOfPow2(k: nat)
    ensures Eighth(Pow2(k)) == Pow2(8 * k)
  {
    Pow2Squared(k);
    Pow2Squared(2 * k);
    Pow2Squared(4 * k);
  }

  lemma {:induction false} Pow2Sum(j: nat, k: nat)
    ensures Pow2(j + k) == Pow2(j) * Pow2(k)
    decreases j
  {
    if j > 0 {
      Pow2Sum(j - 1, k);
      assert Pow2(j + k) == 2 * Pow2(j - 1 + k);
    }
  }

  /** The table holds 2^(14 + r/8), rounded down. */
  lemma TableRoundsDown(r: nat)
    requires r < 8
    ensures Eighth(EXP2_TABLE8[r]) <= Pow2(112 + r) < Eighth(EXP2_TABLE8[r] + 1)
  {
    Pow2Of112();
    Pow2Sum(112, r);
    Pow2Values();
  }

  lemma Pow2Of112()
    ensures Pow2(112) == 0x10000_00000000_00000000_00000000
  {
    Pow2Of32();
    Pow2Of8();
    Pow2Sum(8, 8);
    Pow2Sum(32, 32);
    Pow2Sum(32, 16);
    Pow2Sum(64, 48);
  }

  /** What is shifted out of the table entry, and rounding to an even number, lead to the nearest one. */
  lemma Bracket(t: nat, p: nat, qn: nat)
    requires p > 0 && qn == (t / p + 1) / 2 * 2
    ensures t < (qn + 1) * p && (qn > 0 ==> (qn - 1) * p <= t)
  {
    var d := t / p;
    assert t == d * p + t % p;
    MulMono(d + 1, qn + 1, p);
    if qn > 0 {
      MulMono(qn - 1, d, p);
    }
  }

  lemma Compare(a: nat, t: nat, power: nat, scale: nat, whole: nat)
    requires scale > 0 && whole == power * scale
    ensures a * scale <= t <= whole ==> a <= power
    ensures a * scale >= t > whole ==> a > power
  {
    if a > power {
      MulMono(power + 1, a, scale);
    } else {
      MulMono(a, power, scale);
    }
  }

  lemma RoundedIsNearest(qb: nat)
    requires 4 <= qb <= 64
    ensures Nearest(Rounded(qb), qb)
  {
    hide Eighth, Pow2, Rounded;
    var k, r := qb / 8, qb % 8;
    RoundedInRange(qb);
    TableRoundsDown(r);
    EighthOfPow2(14 - k);
    Pow2Sum(qb, 8 * (14 - k));
    assert qb + 8 * (14 - k) == 112 + r;
    Between(EXP2_TABLE8[r], Pow2(14 - k), Rounded(qb), Pow2(qb), Pow2(112 + r));
  }

  lemma RoundedInRange(qb: nat)
    requires 4 <= qb <= 64
    ensures 2 <= Rounded(qb) <= 256 && Rounded(qb) % 2 == 0
    ensures Rounded(qb) == (EXP2_TABLE8[qb % 8] / Pow2(14 - qb / 8) + 1) / 2 * 2
  {
    hide Pow2;
    ScaledBound(qb);
  }

  /** The eighth powers, with everything multiplied by that of `p`. */
  lemma Between(t: nat, p: nat, qn: nat, power: nat, whole: nat)
    requires p > 0 && qn > 0 && qn == (t / p + 1) / 2 * 2
    requires whole == power * Eighth(p) && Eighth(t) <= whole < Eighth(t + 1) && Eighth(p) > 0
    ensures Eighth(qn - 1) <= power < Eighth(qn + 1)
  {
    hide Eighth;
    Bracket(t, p, qn);
    EighthGrows((qn - 1) * p, t);
    EighthGrows(t + 1, (qn + 1) * p);
    EighthOfProduct(qn - 1, p);
    EighthOfProduct(qn + 1, p);
    Compare(Eighth(qn - 1), Eighth(t), power, Eighth(p), whole);
    Compare(Eighth(qn + 1), Eighth(t + 1), power, Eighth(p), whole);
  }

  lemma ScaledBound(qb: nat)
    requires 4 <= qb <= 64
    ensures 1 <= EXP2_TABLE8[qb % 8] / Pow2(14 - qb / 8) <= 256
  {
    assert Pow2(4) == 16;
    assert Pow2(6) == 64;
    assert Pow2(8) == 256;
    assert Pow2(10) == 1024;
    assert Pow2(12) == 4096;
    assert Pow2(14) == 16384;
  }

  /** Eight coefficients, 58 eighths of a bit, a pulse of three bits: too few are left to split the angle at all. */
  lemma KeptForTheSide()
    ensures ComputeQn(8, 58, 8, 24, false) == 1
  {
  }

  lemma QuotientBound(a: nat, d: nat, bound: nat)
    requires d > 0 && a <= bound * d
    ensures a / d <= bound
  {
    var r := a / d;
    assert a == r * d + a % d;
    assert (bound + 1) * d == bound * d + d;
    if r > bound {
      MulMono(bound + 1, r, d);
    }
  }

  /**
    * Quantising an angle in 0..16384 yields the nearest of the `qn + 1` values, and scaling one of them back an angle.
    */
  lemma QuantisedRange(itheta: nat, qn: nat, q: nat)
    requires itheta <= 16384 && 1 <= qn && q <= qn
    ensures 0 <= (itheta * qn + 8192) / 16384 <= qn
    ensures -8192 <= (itheta * qn + 8192) / 16384 * 16384 - itheta * qn <= 8192
    ensures 0 <= q * 16384 / qn <= 16384
  {
    MulMono(itheta, 16384, qn);
    QuotientBound(itheta * qn + 8192 - 8192 % 16384, 16384, qn);
    MulMono(q, qn, 16384);
    QuotientBound(q * 16384, qn, 16384);
  }

  // ----- the three distributions

  datatype Pdf = Step | Uniform | Triangular

  function Total(pdf: Pdf, qn: nat): nat {
    var h := qn / 2;
    match pdf
    case Step => 3 * (h + 1) + h
    case Uniform => qn + 1
    case Triangular => (h + 1) * (h + 1)
  }

  function Triangle(n: nat): nat { n * (n + 1) / 2 }

  /** Lower end of the interval for `x`, as `ec_encode` gets it. */
  function Low(pdf: Pdf, qn: nat, x: nat): int
    requires x <= qn
  {
    var h := qn / 2;
    match pdf
    case Step => if x <= h then 3 * x else x - 1 - h + (h + 1) * 3
    case Uniform => x
    case Triangular => if x <= h then Triangle(x) else Total(pdf, qn) - Triangle(qn + 1 - x)
  }

  /** Width of the interval for `x`. */
  function Width(pdf: Pdf, qn: nat, x: nat): nat
    requires x <= qn
  {
    var h := qn / 2;
    match pdf
    case Step => if x <= h then 3 else 1
    case Uniform => 1
    case Triangular => if x <= h then x + 1 else qn + 1 - x
  }

  lemma {:induction false} TriangleTwice(n: nat)
    ensures 2 * Triangle(n) == n * (n + 1)
  {
    if n > 0 {
      TriangleTwice(n - 1);
      assert n * (n + 1) == 2 * (Triangle(n - 1) + n);
    }
  }

  lemma NextProduct(n: nat)
    ensures (n + 1) * (n + 2) == n * (n + 1) + 2 * (n + 1)
  {
  }

  lemma TriangleStep(n: nat)
    ensures Triangle(n + 1) == Triangle(n) + n + 1
  {
    TriangleTwice(n);
    TriangleTwice(n + 1);
    NextProduct(n);
  }

  lemma SquareIsTwoTriangles(h: nat)
    ensures (h + 1) * (h + 1) == Triangle(h) + Triangle(h + 1)
  {
    TriangleTwice(h);
    TriangleTwice(h + 1);
    NextProduct(h);
    assert (h + 1) * (h + 1) == h * (h + 1) + (h + 1);
  }

  /**
    * The intervals tile the range: the first starts at 0, each next one where its neighbour ends, the last ends at
    * the total.
    */
  lemma IntervalsTile(pdf: Pdf, qn: nat, x: nat)
    requires ValidQn(qn) && qn != 1 && x <= qn
    ensures Low(pdf, qn, 0) == 0 && Low(pdf, qn, qn) + Width(pdf, qn, qn) == Total(pdf, qn)
    ensures x < qn ==> Low(pdf, qn, x + 1) == Low(pdf, qn, x) + Width(pdf, qn, x)
  {
    hide Triangle;
    if pdf == Triangular {
      var h := qn / 2;
      TriangleTwice(0);
      TriangleStep(h);
      TriangleStep(x);
      if x < qn { TriangleStep(qn - x); }
      SquareIsTwoTriangles(h);
      TriangleStep(0);
    }
  }

  lemma {:induction false} LowGrows(pdf: Pdf, qn: nat, x: nat, y: nat)
    requires ValidQn(qn) && qn != 1 && x < y <= qn
    ensures Low(pdf, qn, x) + Width(pdf, qn, x) <= Low(pdf, qn, y)
    decreases y
  {
    hide Low, Total;
    IntervalsTile(pdf, qn, y - 1);
    if x < y - 1 {
      LowGrows(pdf, qn, x, y - 1);
    }
  }

  ghost predicate Inside(pdf: Pdf, qn: nat, x: nat, f: int)
    requires x <= qn
  {
    Low(pdf, qn, x) <= f < Low(pdf, qn, x) + Width(pdf, qn, x)
  }

  /** No point belongs to two angles. */
  lemma Disjoint(pdf: Pdf, qn: nat, x: nat, y: nat, f: int)
    requires ValidQn(qn) && qn != 1 && x <= qn && y <= qn
    requires Inside(pdf, qn, x, f) && Inside(pdf, qn, y, f)
    ensures x == y
  {
    if x < y {
      LowGrows(pdf, qn, x, y);
    } else if y < x {
      LowGrows(pdf, qn, y, x);
    }
  }

  // ----- decoding

  lemma OddSquare(x: nat)
    ensures (2 * x + 1) * (2 * x + 1) == 8 * Triangle(x) + 1
  {
    TriangleTwice(x);
    assert (2 * x + 1) * (2 * x + 1) == 4 * (x * (x + 1)) + 1;
  }

  /** The square root of `8f + 1` tells the triangle that contains `f`. */
  lemma RootOfTriangle(f: nat, x: nat, s: nat)
    requires Triangle(x) <= f < Triangle(x + 1) && IsSqrt(8 * f + 1, s)
    ensures 2 * x + 1 <= s <= 2 * x + 2
  {
    hide Triangle;
    OddSquare(x);
    OddSquare(x + 1);
    if s < 2 * x + 1 {
      SquareMono(s + 1, 2 * x + 1);
    }
    if s > 2 * x + 2 {
      SquareMono(2 * x + 3, s);
    }
  }

  lemma {:induction false} TriangleOf(f: nat, n: nat) returns (x: nat)
    requires f < Triangle(n)
    ensures x < n && Triangle(x) <= f < Triangle(x + 1)
  {
    assert n > 0 by { TriangleTwice(0); }
    if f >= Triangle(n - 1) {
      x := n - 1;
    } else {
      x := TriangleOf(f, n - 1);
    }
  }

  /** Below the middle the root leads to the angle directly. */
  lemma LowerHalf(qn: nat, fm: nat, s: nat)
    requires ValidQn(qn) && qn != 1 && fm < Triangle(qn / 2) && IsSqrt(8 * fm + 1, s)
    ensures var itheta := (s - 1) / 2; 0 <= itheta < qn / 2 && Inside(Triangular, qn, itheta, fm)
  {
    hide Triangle, IsSqrt;
    var x := TriangleOf(fm, qn / 2);
    RootOfTriangle(fm, x, s);
    TriangleStep(x);
    assert (s - 1) / 2 == x;
  }

  /** From the middle on the angle is found from the other end. */
  lemma UpperHalf(qn: nat, fm: nat, s: nat)
    requires ValidQn(qn) && qn != 1 && Triangle(qn / 2) <= fm < Total(Triangular, qn)
    requires IsSqrt(8 * (Total(Triangular, qn) - fm - 1) + 1, s)
    ensures var itheta := (2 * (qn + 1) - s) / 2;
            && qn / 2 <= itheta <= qn && Inside(Triangular, qn, itheta, fm)
            && Low(Triangular, qn, itheta) == Total(Triangular, qn) - Triangle(qn + 1 - itheta)
            && Width(Triangular, qn, itheta) == qn + 1 - itheta
  {
    hide Triangle, IsSqrt;
    var h := qn / 2;
    SquareIsTwoTriangles(h);
    var g := Total(Triangular, qn) - fm - 1;
    var x := TriangleOf(g, h + 1);
    RootOfTriangle(g, x, s);
    TriangleStep(x);
    TriangleStep(h);
    assert (2 * (qn + 1) - s) / 2 == qn - x;
  }

  lemma TotalIsSmall(qn: nat)
    requires ValidQn(qn)
    ensures Total(Triangular, qn) <= 129 * 129
  {
    SquareMono(qn / 2 + 1, 129);
  }

  /** The decoder's side of the triangular pdf: the angle and its interval, from any point of the range. */
  method DecodeTriangular(qn: nat, fm: nat) returns (itheta: nat, fl: int, fs: int)
    requires ValidQn(qn) && qn != 1 && fm < Total(Triangular, qn)
    ensures itheta <= qn && Inside(Triangular, qn, itheta, fm)
    ensures fl == Low(Triangular, qn, itheta) && fs == Width(Triangular, qn, itheta)
  {
    hide IsSqrt;
    var ft := (qn / 2 + 1) * (qn / 2 + 1);
    TotalIsSmall(qn);
    if fm < qn / 2 * (qn / 2 + 1) / 2 {
      var s := Isqrt32(8 * fm + 1);
      LowerHalf(qn, fm, s);
      itheta := (s - 1) / 2;
      fs := itheta + 1;
      fl := itheta * (itheta + 1) / 2;
    } else {
      var s := Isqrt32(8 * (ft - fm - 1) + 1);
      UpperHalf(qn, fm, s);
      itheta := (2 * (qn + 1) - s) / 2;
      fs := qn + 1 - itheta;
      fl := ft - (qn + 1 - itheta) * (qn + 2 - itheta) / 2;
    }
  }

  /** The decoder's side of the step pdf. */
  method DecodeStep(qn: nat, fs: nat) returns (x: nat, fl: int, fh: int)
    requires ValidQn(qn) && qn != 1 && fs < Total(Step, qn)
    ensures x <= qn && Inside(Step, qn, x, fs)
    ensures fl == Low(Step, qn, x) && fh == Low(Step, qn, x) + Width(Step, qn, x)
  {
    var p0, x0 := 3, qn / 2;
    if fs < (x0 + 1) * p0 {
      x := fs / p0;
    } else {
      x := x0 + 1 + (fs - (x0 + 1) * p0);
    }
    fl := if x <= x0 then p0 * x else x - 1 - x0 + (x0 + 1) * p0;
    fh := if x <= x0 then p0 * (x + 1) else x - x0 + (x0 + 1) * p0;
  }

  /** The encoder's side of the step pdf, written as the source writes it. */
  method EncodeStep(qn: nat, itheta: nat) returns (fl: int, fh: int, ft: int)
    requires ValidQn(qn) && qn != 1 && itheta <= qn
    ensures fl == Low(Step, qn, itheta) && fh == fl + Width(Step, qn, itheta) && ft == Total(Step, qn)
    ensures 0 <= fl < fh <= ft
  {
    var p0, x, x0 := 3, itheta, qn / 2;
    ft := p0 * (x0 + 1) + x0;
    fl := if x <= x0 then p0 * x else x - 1 - x0 + (x0 + 1) * p0;
    fh := if x <= x0 then p0 * (x + 1) else x - x0 + (x0 + 1) * p0;
  }

  /** The encoder's side of the triangular pdf. */
  method EncodeTriangular(qn: nat, itheta: nat) returns (fl: int, fh: int, ft: int)
    requires ValidQn(qn) && qn != 1 && itheta <= qn
    ensures fl == Low(Triangular, qn, itheta) && fh == fl + Width(Triangular, qn, itheta) && ft == Total(Triangular, qn)
    ensures 0 <= fl < fh <= ft
  {
    var h := qn / 2;
    ft := (h + 1) * (h + 1);
    var fs := if itheta <= h then itheta + 1 else qn + 1 - itheta;
    fl := if itheta <= h then itheta * (itheta + 1) / 2 else ft - (qn + 1 - itheta) * (qn + 2 - itheta) / 2;
    fh := fl + fs;
    LowIsInRange(Triangular, qn, itheta);
  }

  lemma LowIsInRange(pdf: Pdf, qn: nat, x: nat)
    requires ValidQn(qn) && qn != 1 && x <= qn
    ensures 0 <= Low(pdf, qn, x) && Low(pdf, qn, x) + Width(pdf, qn, x) <= Total(pdf, qn)
  {
    hide Low, Total;
    IntervalsTile(pdf, qn, x);
    if x > 0 { LowGrows(pdf, qn, 0, x); }
    if x < qn { LowGrows(pdf, qn, x, qn); }
  }

  // ----- compute_theta

  /** The choice of distribution. */
  function PdfFor(stereo: bool, N: nat, B0: nat): Pdf {
    if stereo && N > 2 then Step else if B0 > 1 || stereo then Uniform else Triangular
  }

  /**
    * The probabilities of section 4.3.4.3 of RFC 6716: in stereo 3 to 1 for the lower half, flat for two stereo
    * samples or where blocks are interleaved, and a triangle otherwise.
    */
  lemma Weights(stereo: bool, N: nat, B0: nat, qn: nat, x: nat)
    requires ValidQn(qn) && qn != 1 && x <= qn
    ensures Width(PdfFor(stereo, N, B0), qn, x)
         == if stereo && N > 2 then (if 2 * x <= qn then 3 else 1)
            else if stereo || B0 > 1 then 1
            else if 2 * x <= qn then x + 1 else qn + 1 - x
    ensures Total(PdfFor(stereo, N, B0), qn)
         == if stereo && N > 2 then 2 * qn + 3
            else if stereo || B0 > 1 then qn + 1
            else (qn / 2 + 1) * (qn / 2 + 1)
  {
  }

  /** What the encoder hands to the range coder for a quantised angle. */
  method EncodeTheta(stereo: bool, N: nat, B0: nat, qn: nat, itheta: nat) returns (fl: int, fh: int, ft: int)
    requires ValidQn(qn) && qn != 1 && itheta <= qn
    ensures var pdf := PdfFor(stereo, N, B0);
            && fl == Low(pdf, qn, itheta) && fh == fl + Width(pdf, qn, itheta) && ft == Total(pdf, qn)
            && 0 <= fl < fh <= ft
  {
    if stereo && N > 2 {
      fl, fh, ft := EncodeStep(qn, itheta);
    } else if B0 > 1 || stereo {
      fl, fh, ft := itheta, itheta + 1, qn + 1;
    } else {
      fl, fh, ft := EncodeTriangular(qn, itheta);
    }
  }

  /** What the decoder makes of a point of the range: the angle, and the interval it reports back. */
  method DecodeTheta(stereo: bool, N: nat, B0: nat, qn: nat, fm: nat) returns (itheta: nat, fl: int, fh: int)
    requires ValidQn(qn) && qn != 1 && fm < Total(PdfFor(stereo, N, B0), qn)
    ensures var pdf := PdfFor(stereo, N, B0);
            && itheta <= qn && Inside(pdf, qn, itheta, fm)
            && fl == Low(pdf, qn, itheta) && fh == fl + Width(pdf, qn, itheta)
  {
    if stereo && N > 2 {
      itheta, fl, fh := DecodeStep(qn, fm);
    } else if B0 > 1 || stereo {
      itheta, fl, fh := fm, fm, fm + 1;
    } else {
      var fs;
      itheta, fl, fs := DecodeTriangular(qn, fm);
      fh := fl + fs;
    }
  }

  /**
    * End to end: the decoder may be handed any point of the interval the encoder chose; it finds the encoder's
    * angle and tells the range coder the same interval.
    */
  method ThetaRoundTrip(stereo: bool, N: nat, B0: nat, qn: nat, itheta: nat, fm: nat)
    returns (sent: (int, int), decoded: nat, received: (int, int))
    requires ValidQn(qn) && qn != 1 && itheta <= qn && Inside(PdfFor(stereo, N, B0), qn, itheta, fm)
    ensures decoded == itheta && received == sent && sent.0 <= fm < sent.1
  {
    hide Low, Total, Width;
    ghost var pdf := PdfFor(stereo, N, B0);
    var fl, fh, ft := EncodeTheta(stereo, N, B0, qn, itheta);
    LowIsInRange(pdf, qn, itheta);
    var dl, dh;
    decoded, dl, dh := DecodeTheta(stereo, N, B0, qn, fm);
    Disjoint(pdf, qn, itheta, decoded, fm);
    sent, received := (fl, fh), (dl, dh);
  }
}
