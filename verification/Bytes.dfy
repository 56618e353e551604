/** Octets as small integers, the one bitwise operation the models need, and big-endian numbers. */
module Bytes {

  type byte = b: int | 0 <= b < 256

  const TWO_32 := 0x1_0000_0000

  /** Exclusive or of the `width` low-order bits of `a` and `b`, one bit at a time. */
  function XorBits(a: nat, b: nat, width: nat): (r: nat)
    ensures r < Pow2(width)
  {
    if width == 0 then 0 else (if a % 2 == b % 2 then 0 else 1) + 2 * XorBits(a / 2, b / 2, width - 1)
  }

  function Pow2(k: nat): (r: nat)
    ensures r >= 1
  {
    if k == 0 then 1 else 2 * Pow2(k - 1)
  }

  lemma {:induction false} XorBitsCancels(a: nat, b: nat, width: nat)
    requires a < Pow2(width)
    ensures XorBits(XorBits(a, b, width), b, width) == a
  {
    if width > 0 {
      XorBitsCancels(a / 2, b / 2, width - 1);
    }
  }

  lemma {:induction false} XorBitsZero(a: nat, width: nat)
    requires a < Pow2(width)
    ensures XorBits(a, 0, width) == a
  {
    if width > 0 {
      XorBitsZero(a / 2, width - 1);
    }
  }

  lemma Pow2Of8()
    ensures Pow2(8) == 256
  {
    assert Pow2(4) == 16;
    assert Pow2(6) == 64;
  }

  function Xor(a: byte, b: byte): byte {
    Pow2Of8();
    XorBits(a, b, 8)
  }

  // ----- what it is, bit by bit

  /** Bit `k` of `n`. */
  predicate BitOf(n: nat, k: nat) { n / Pow2(k) % 2 == 1 }

  lemma Pow2Values()
    ensures Pow2(0) == 1 && Pow2(1) == 2 && Pow2(2) == 4 && Pow2(3) == 8
    ensures Pow2(4) == 16 && Pow2(5) == 32 && Pow2(6) == 64 && Pow2(7) == 128 && Pow2(8) == 256
  {
    assert Pow2(3) == 2 * Pow2(2);
    assert Pow2(5) == 2 * Pow2(4);
    assert Pow2(7) == 2 * Pow2(6);
  }

  lemma HalfDivides(n: nat, p: nat)
    requires p > 0
    ensures n / (2 * p) == n / 2 / p
  {
    var q := n / (2 * p);
    var r := n % (2 * p);
    assert n == 2 * (q * p) + r;
    assert n / 2 == q * p + r / 2;
    assert r / 2 < p;
    QuotientIs(n / 2, p, q, r / 2);
  }

  lemma QuotientIs(n: nat, p: nat, q: nat, r: nat)
    requires n == q * p + r && r < p
    ensures n / p == q
  {
    var d := n / p;
    assert n == d * p + n % p;
    if d > q {
      AtLeastOnce(d - q, p);
    } else if d < q {
      AtLeastOnce(q - d, p);
    }
  }

  lemma AtLeastOnce(x: nat, p: nat)
    requires x >= 1
    ensures x * p >= p
  {
  }

  /** The bits of a number, from the second on, are those of its half. */
  lemma BitOfHalf(n: nat, k: nat)
    requires k > 0
    ensures BitOf(n, k) <==> BitOf(n / 2, k - 1)
  {
    HalfDivides(n, Pow2(k - 1));
  }

  lemma {:induction false} XorBitsAt(a: nat, b: nat, width: nat, k: nat)
    requires k < width
    ensures BitOf(XorBits(a, b, width), k) <==> BitOf(a, k) != BitOf(b, k)
    decreases k
  {
    hide BitOf;
    var r, rest := XorBits(a, b, width), XorBits(a / 2, b / 2, width - 1);
    assert r % 2 == (if a % 2 == b % 2 then 0 else 1) && r / 2 == rest;
    if k == 0 {
      LowestBit(a);
      LowestBit(b);
      LowestBit(r);
    } else {
      XorBitsAt(a / 2, b / 2, width - 1, k - 1);
      BitOfHalf(a, k);
      BitOfHalf(b, k);
      BitOfHalf(r, k);
    }
  }

  lemma LowestBit(n: nat)
    ensures BitOf(n, 0) <==> n % 2 == 1
  {
  }

  /** `r` has a bit exactly where one of `a` and `b` has it and the other has not. */
  ghost predicate ExclusiveOr(r: byte, a: byte, b: byte) {
    forall k | 0 <= k < 8 :: BitOf(r, k) <==> BitOf(a, k) != BitOf(b, k)
  }

  lemma XorIsExclusiveOr(a: byte, b: byte)
    ensures ExclusiveOr(Xor(a, b), a, b)
  {
    hide BitOf;
    forall k | 0 <= k < 8 ensures BitOf(Xor(a, b), k) <==> BitOf(a, k) != BitOf(b, k) {
      XorBitsAt(a, b, 8, k);
    }
  }

  lemma XorCancels(a: byte, b: byte)
    ensures Xor(Xor(a, b), b) == a
  {
    Pow2Of8();
    XorBitsCancels(a, b, 8);
  }

  lemma XorZero(a: byte)
    ensures Xor(a, 0) == a
  {
    Pow2Of8();
    XorBitsZero(a, 8);
  }

  /** Pieces, one after the other. */
  function Flatten(pieces: seq<seq<byte>>): seq<byte> {
    if pieces == [] then [] else pieces[0] + Flatten(pieces[1..])
  }

  lemma {:induction false} FlattenOfConcat(a: seq<seq<byte>>, b: seq<seq<byte>>)
    ensures Flatten(a + b) == Flatten(a) + Flatten(b)
    decreases |a|
  {
    if a == [] {
      assert a + b == b;
    } else {
      assert (a + b)[1..] == a[1..] + b;
      FlattenOfConcat(a[1..], b);
    }
  }

  /** The value of `s` read as a big-endian number (what `ntohs` and `be64toh` yield). */
  function FromBigEndian(s: seq<byte>): nat {
    if s == [] then 0 else FromBigEndian(s[..|s| - 1]) * 256 + s[|s| - 1]
  }

  /** The `width` low-order octets of `n`, most significant first (`htons`, `htobe64`). */
  function ToBigEndian(n: nat, width: nat): (s: seq<byte>)
    ensures |s| == width
  {
    if width == 0 then [] else ToBigEndian(n / 256, width - 1) + [n % 256]
  }

  function Pow256(k: nat): (r: nat)
    ensures r >= 1
  {
    if k == 0 then 1 else 256 * Pow256(k - 1)
  }

  lemma {:induction false} BigEndianRoundTrip(n: nat, width: nat)
    requires n < Pow256(width)
    ensures FromBigEndian(ToBigEndian(n, width)) == n
  {
    if width > 0 {
      BigEndianRoundTrip(n / 256, width - 1);
      var s := ToBigEndian(n, width);
      assert s[..|s| - 1] == ToBigEndian(n / 256, width - 1);
    }
  }

  /** Octet `k` from the front has the weight 256^(width - 1 - k). */
  lemma {:induction false} BigEndianAt(n: nat, width: nat, k: nat)
    requires k < width
    ensures ToBigEndian(n, width)[k] == n / Pow256(width - 1 - k) % 256
    decreases width
  {
    if k < width - 1 {
      BigEndianAt(n / 256, width - 1, k);
      DivideTwice(n, Pow256(width - 2 - k));
    }
  }

  lemma DivideTwice(n: nat, p: nat)
    requires p > 0
    ensures n / (256 * p) == n / 256 / p
  {
    var q, r := n / (256 * p), n % (256 * p);
    assert n == 256 * (q * p) + r;
    assert n / 256 == q * p + r / 256;
    assert r / 256 < p;
    QuotientIs(n / 256, p, q, r / 256);
  }

  lemma Pow256Values()
    ensures Pow256(1) == 0x100 && Pow256(2) == 0x1_0000 && Pow256(8) == 0x1_0000_0000_0000_0000
  {
    assert Pow256(3) == 0x100_0000;
    assert Pow256(5) == 0x100_0000_0000;
    assert Pow256(7) == 0x100_0000_0000_0000;
  }
}
