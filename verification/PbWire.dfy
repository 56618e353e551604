/** The protobuf wire format at the level of single numbers: varints, zigzag, fixed-width and length prefixes. */
module PbWire {
  import opened Bytes

  const TWO_63 := 0x8000_0000_0000_0000
  const TWO_64 := 0x1_0000_0000_0000_0000

  /** What a read from a stream yields: a value and the bytes after it, or a failure. */
  datatype Read<T> = Got(value: T, rest: seq<byte>) | Bad

  // ----- varints

  /** Seven bits a byte, least significant first, the top bit set on all but the last. */
  function EncVarint(v: nat): (s: seq<byte>)
    ensures |s| >= 1
  {
    if v < 128 then [v] else [v % 128 + 128] + EncVarint(v / 128)
  }

  function Pow128(k: nat): (r: nat)
    ensures r >= 1
  {
    if k == 0 then 1 else 128 * Pow128(k - 1)
  }

  /** Byte `k` carries bits 7k to 7k + 6, and the top bit is set on all bytes but the last; no byte is wasted. */
  lemma {:induction false} VarintAt(v: nat, k: nat)
    requires k < |EncVarint(v)|
    ensures EncVarint(v)[k] % 128 == v / Pow128(k) % 128
    ensures EncVarint(v)[k] >= 128 <==> k < |EncVarint(v)| - 1
    ensures v > 0 ==> EncVarint(v)[|EncVarint(v)| - 1] > 0
    decreases v
  {
    if v >= 128 {
      VarintAt(v / 128, if k == 0 then 0 else k - 1);
      if k > 0 {
        SevenBitsMore(v, Pow128(k - 1));
      }
    }
  }

  lemma SevenBitsMore(n: nat, p: nat)
    requires p > 0
    ensures n / (128 * p) == n / 128 / p
  {
    var q, r := n / (128 * p), n % (128 * p);
    assert n == 128 * (q * p) + r;
    assert n / 128 == q * p + r / 128;
    assert r / 128 < p;
    QuotientIs(n / 128, p, q, r / 128);
  }

  /** What still fits into 64 bits after `k` bytes of seven bits. */
  function Room(k: nat): (r: nat)
    ensures r >= 2
    decreases 9 - k
  {
    if k >= 9 then 2 else 128 * Room(k + 1)
  }

  /** `pb_decode_varint` after `k` bytes: at most ten bytes, and only one bit of the tenth fits. */
  function VarintFrom(s: seq<byte>, k: nat): Read<nat>
    decreases |s|
  {
    if k >= 10 || s == [] then Bad
    else if s[0] < 128 then Got(if k == 9 then s[0] % 2 else s[0], s[1..])
    else
      match VarintFrom(s[1..], k + 1)
      case Got(v, rest) => Got(s[0] - 128 + 128 * v, rest)
      case Bad => Bad
  }

  function ReadVarint(s: seq<byte>): Read<nat> { VarintFrom(s, 0) }

  lemma RoomIs64Bits()
    ensures Room(0) == TWO_64
  {
    assert Room(8) == 256;
    assert Room(6) == 256 * 128 * 128;
    assert Room(4) == 256 * 128 * 128 * 128 * 128;
    assert Room(2) == 128 * 128 * Room(4);
  }

  lemma {:induction false} VarintFits(s: seq<byte>, k: nat)
    ensures VarintFrom(s, k).Got? ==> VarintFrom(s, k).value < Room(k) && |VarintFrom(s, k).rest| < |s|
    decreases |s|
  {
    if k < 10 && s != [] && s[0] >= 128 {
      VarintFits(s[1..], k + 1);
    }
  }

  lemma ReadVarintFits(s: seq<byte>)
    ensures ReadVarint(s).Got? ==> ReadVarint(s).value < TWO_64 && |ReadVarint(s).rest| < |s|
  {
    RoomIs64Bits();
    VarintFits(s, 0);
  }

  lemma {:induction false} VarintFromEnc(v: nat, k: nat, t: seq<byte>)
    requires v < Room(k) && k < 10
    ensures VarintFrom(EncVarint(v) + t, k) == Got(v, t)
    decreases v
  {
    var s := EncVarint(v) + t;
    if v < 128 {
      assert s[1..] == t;
    } else {
      VarintFromEnc(v / 128, k + 1, t);
      assert s[1..] == EncVarint(v / 128) + t;
    }
  }

  /** Every 64-bit number comes back from its encoding, and the reader stops right after it. */
  lemma VarintRoundTrip(v: nat, t: seq<byte>)
    requires v < TWO_64
    ensures ReadVarint(EncVarint(v) + t) == Got(v, t)
  {
    RoomIs64Bits();
    VarintFromEnc(v, 0, t);
  }

  lemma {:induction false} VarintIsLocal(s: seq<byte>, k: nat, t: seq<byte>)
    requires VarintFrom(s, k).Got?
    ensures VarintFrom(s + t, k) == Got(VarintFrom(s, k).value, VarintFrom(s, k).rest + t)
    decreases |s|
  {
    assert (s + t)[1..] == s[1..] + t;
    if s[0] >= 128 {
      VarintIsLocal(s[1..], k + 1, t);
    }
  }

  /** The number that the low seven bits of the bytes spell, the lowest first. */
  function Sevens(s: seq<byte>): nat {
    if s == [] then 0 else s[0] % 128 + 128 * Sevens(s[1..])
  }

  lemma RemainderOfDigits(c: nat, x: nat, m: nat)
    requires c < 128 && m > 0
    ensures (c + 128 * x) % (128 * m) == c + 128 * (x % m)
  {
    var q, r := x / m, x % m;
    assert x == q * m + r;
    assert c + 128 * x == q * (128 * m) + (c + 128 * r);
    QuotientIs(c + 128 * x, 128 * m, q, c + 128 * r);
  }

  /** The last byte of a varint of `n` bytes is its first one below 128. */
  predicate EndsAt(s: seq<byte>, n: nat) {
    0 < n <= |s| && s[n - 1] < 128 && forall i | 0 <= i < n - 1 :: s[i] >= 128
  }

  lemma {:induction false} VarintIsSevens(s: seq<byte>, k: nat, n: nat)
    requires EndsAt(s, n) && k <= 9
    ensures VarintFrom(s, k) == if n + k <= 10 then Got(Sevens(s[..n]) % Room(k), s[n..]) else Bad
    decreases n
  {
    hide Room, Sevens;
    if n == 1 {
      SevensOfOne(s[..1]);
      RoomForOne(k, s[0]);
    } else if k == 9 {
      assert VarintFrom(s[1..], 10) == Bad;
    } else {
      var tail := s[1..];
      assert s[0] >= 128;
      VarintIsSevens(tail, k + 1, n - 1);
      assert s[..n][1..] == tail[..n - 1] && tail[n - 1..] == s[n..];
      OneMoreSeven(s[..n], k);
    }
  }

  lemma OneMoreSeven(s: seq<byte>, k: nat)
    requires s != [] && s[0] >= 128 && k < 9
    ensures Sevens(s) % Room(k) == s[0] - 128 + 128 * (Sevens(s[1..]) % Room(k + 1))
  {
    hide Sevens;
    SevensOfMore(s);
    RemainderOfDigits(s[0] - 128, Sevens(s[1..]), Room(k + 1));
    assert Room(k) == 128 * Room(k + 1);
  }

  lemma SevensOfMore(s: seq<byte>)
    requires s != []
    ensures Sevens(s) == s[0] % 128 + 128 * Sevens(s[1..])
  {
  }

  lemma SevensOfOne(s: seq<byte>)
    requires |s| == 1 && s[0] < 128
    ensures Sevens(s) == s[0]
  {
    assert s[1..] == [];
  }

  lemma RoomForOne(k: nat, b: byte)
    requires k <= 9 && b < 128
    ensures b % Room(k) == if k == 9 then b % 2 else b as int
  {
    if k < 9 {
      assert Room(k) == 128 * Room(k + 1);
      SmallRemainder(b, Room(k));
    }
  }

  lemma SmallRemainder(x: nat, m: nat)
    requires x < m
    ensures x % m == x
  {
    QuotientIs(x, m, 0, x);
  }

  /** A varint is read exactly if it ends within ten bytes: as the number its bytes spell, modulo 2^64. */
  lemma ReadVarintExactly(s: seq<byte>, n: nat)
    requires EndsAt(s, n)
    ensures ReadVarint(s) == if n <= 10 then Got(Sevens(s[..n]) % TWO_64, s[n..]) else Bad
  {
    RoomIs64Bits();
    VarintIsSevens(s, 0, n);
  }

  // ----- varints of 32 bits: tags and lengths

  datatype Read32 = Value32(value: nat, rest: seq<byte>) | Bad32 | Eof

  /** The byte `b` shifted to its place and cut to 32 bits. */
  function Shift32(b: byte, k: nat): nat
    requires 1 <= k < 5
  {
    if k == 1 then b % 128 * 0x80
    else if k == 2 then b % 128 * 0x4000
    else if k == 3 then b % 128 * 0x20_0000
    else b % 16 * 0x1000_0000
  }

  /** The loop of `pb_decode_varint32_eof` after `k` bytes. */
  function Varint32From(s: seq<byte>, k: nat, result: nat): (r: Read32)
    requires k >= 1
    ensures !r.Eof?
    decreases |s|
  {
    if s == [] then Bad32
    else
      var b := s[0];
      var sign := if 7 * k < 63 then 0xFF else 0x01;
      if k >= 5 && b % 128 != 0 && (result < 0x8000_0000 || b != sign) then Bad32
      else
        var result' := if k >= 5 then result else result + Shift32(b, k);
        if b >= 128 then Varint32From(s[1..], k + 1, result')
        else if k == 4 && b >= 16 then Bad32
        else Value32(result', s[1..])
  }

  function ReadVarint32(s: seq<byte>): Read32 {
    if s == [] then Eof
    else if s[0] < 128 then Value32(s[0], s[1..])
    else Varint32From(s[1..], 1, s[0] - 128)
  }

  function Weight(k: nat): nat {
    if k == 0 then 1 else if k == 1 then 0x80 else if k == 2 then 0x4000 else if k == 3 then 0x20_0000 else 0x1000_0000
  }

  lemma ShiftStep(v: nat, k: nat)
    requires 1 <= k <= 4 && Weight(k) * v < TWO_32
    ensures v < 128 ==> Shift32(v, k) == Weight(k) * v
    ensures v >= 128 ==> k < 4 && Weight(k) * v == Shift32(v % 128 + 128, k) + Weight(k + 1) * (v / 128)
    ensures k == 4 ==> v < 16
  {
    if k == 1 {
    } else if k == 2 {
    } else if k == 3 {
    } else {
      assert v < 16;
    }
  }

  lemma {:induction false} Varint32FromEnc(v: nat, k: nat, result: nat, t: seq<byte>)
    requires 1 <= k <= 4 && Weight(k) * v < TWO_32
    ensures Varint32From(EncVarint(v) + t, k, result) == Value32(result + Weight(k) * v, t)
    decreases v
  {
    hide Weight, Shift32;
    var s := EncVarint(v) + t;
    ShiftStep(v, k);
    if v < 128 {
      assert s[1..] == t;
    } else {
      Varint32FromEnc(v / 128, k + 1, result + Shift32(s[0], k), t);
      assert s[1..] == EncVarint(v / 128) + t;
    }
  }

  /** Every 32-bit number comes back from its encoding. */
  lemma Varint32RoundTrip(v: nat, t: seq<byte>)
    requires v < TWO_32
    ensures ReadVarint32(EncVarint(v) + t) == Value32(v, t)
  {
    hide Varint32From, Weight, Shift32, EncVarint;
    var s, high, low := EncVarint(v) + t, v / 128, v % 128;
    FirstSeven(v);
    if v < 128 {
      assert s[1..] == t;
    } else {
      FirstWeight();
      Varint32FromEnc(high, 1, low, t);
      assert s[0] == low + 128 && s[1..] == EncVarint(high) + t;
    }
  }

  lemma FirstSeven(v: nat)
    ensures v < 128 ==> EncVarint(v) == [v]
    ensures v >= 128 ==> EncVarint(v) == [v % 128 + 128] + EncVarint(v / 128)
    ensures v == v / 128 * 128 + v % 128
  {
  }

  lemma FirstWeight()
    ensures Weight(1) == 0x80
  {
  }

  lemma {:induction false} Varint32FromFits(s: seq<byte>, k: nat, result: nat)
    requires k >= 1 && result < (if k >= 5 then TWO_32 else Weight(k))
    ensures Varint32From(s, k, result).Value32? ==>
              Varint32From(s, k, result).value < TWO_32 && |Varint32From(s, k, result).rest| < |s|
    decreases |s|
  {
    if s != [] {
      if k >= 5 {
        Varint32FromFits(s[1..], k + 1, result);
      } else {
        Varint32FromFits(s[1..], k + 1, result + Shift32(s[0], k));
      }
    }
  }

  lemma LowHalfStep(result: nat, b: byte, v: nat, k: nat)
    requires 1 <= k <= 4 && result < Weight(k) && b >= 128
    ensures var whole, next := result + Weight(k) * (b - 128 + 128 * v), result + Shift32(b, k);
            if k < 4 then whole == next + Weight(k + 1) * v && next < Weight(k + 1)
            else whole % TWO_32 == next && next < TWO_32
  {
    if k == 1 {
    } else if k == 2 {
    } else if k == 3 {
    } else {
      FifthByte(result, b / 16 - 8, b % 16, v);
    }
  }

  /** Of the fifth byte only four bits belong to the low half. */
  lemma FifthByte(result: nat, high: nat, low: nat, v: nat)
    requires low < 16 && result < 0x1000_0000
    ensures var next := result + 0x1000_0000 * low;
            next < TWO_32 && (result + 0x1000_0000 * (16 * high + low + 128 * v)) % TWO_32 == next
  {
    ModMultiple(result + 0x1000_0000 * low, high + 8 * v);
  }

  lemma ModMultiple(x: nat, y: nat)
    requires x < TWO_32
    ensures (x + TWO_32 * y) % TWO_32 == x
  {
  }

  lemma {:induction false} LowHalfFrom(s: seq<byte>, k: nat, result: nat)
    requires k >= 1 && result < (if k >= 5 then TWO_32 else Weight(k))
    requires Varint32From(s, k, result).Value32? && VarintFrom(s, k).Got?
    ensures var r, v := Varint32From(s, k, result), VarintFrom(s, k).value;
            && r.rest == VarintFrom(s, k).rest
            && r.value == if k >= 5 then result else (result + Weight(k) * v) % TWO_32
    decreases |s|
  {
    hide Weight, Shift32;
    if s[0] >= 128 {
      if k >= 5 {
        LowHalfFrom(s[1..], k + 1, result);
      } else {
        LowHalfStep(result, s[0], VarintFrom(s[1..], k + 1).value, k);
        LowHalfFrom(s[1..], k + 1, result + Shift32(s[0], k));
      }
    } else if k < 5 {
      LastByte(result, s[0], k);
    }
  }

  lemma LastByte(result: nat, b: byte, k: nat)
    requires 1 <= k <= 4 && result < Weight(k) && b < (if k == 4 then 16 else 128)
    ensures result + Shift32(b, k) == (result + Weight(k) * b) % TWO_32
  {
    if k == 1 {
    } else if k == 2 {
    } else if k == 3 {
    } else {
      assert b % 16 == b;
    }
  }

  /**
    * Whatever varint the 32-bit reader accepts, over-long and negative ones too, it reads the low half of the number
    * that the 64-bit reader reads, and stops where that stops.
    */
  lemma Varint32IsLowHalf(s: seq<byte>)
    requires ReadVarint32(s).Value32? && ReadVarint(s).Got?
    ensures ReadVarint32(s).value == ReadVarint(s).value % TWO_32 && ReadVarint32(s).rest == ReadVarint(s).rest
  {
    hide Varint32From, Weight, Shift32;
    FirstWeight();
    if s[0] >= 128 {
      LowHalfFrom(s[1..], 1, s[0] - 128);
    }
  }

  lemma {:induction false} AcceptsFrom(s: seq<byte>, k: nat, result: nat, n: nat)
    requires EndsAt(s, n) && k >= 1 && n + k <= 5
    ensures Varint32From(s, k, result).Value32? <==> n + k < 5 || s[n - 1] < 16
    decreases n
  {
    hide Shift32;
    if n > 1 {
      assert s[0] >= 128;
      AcceptsFrom(s[1..], k + 1, result + Shift32(s[0], k), n - 1);
    }
  }

  /** Of the varints of up to five bytes it accepts those that fit into 32 bits, and no others. */
  lemma Varint32AcceptsExactly(s: seq<byte>, n: nat)
    requires EndsAt(s, n) && n <= 5
    ensures ReadVarint32(s).Value32? <==> n < 5 || s[4] < 16
  {
    hide Varint32From;
    if n > 1 {
      assert s[0] >= 128;
      AcceptsFrom(s[1..], 1, s[0] - 128, n - 1);
    }
  }

  lemma ReadVarint32Fits(s: seq<byte>)
    ensures ReadVarint32(s).Value32? ==> ReadVarint32(s).value < TWO_32 && |ReadVarint32(s).rest| < |s|
  {
    if s != [] && s[0] >= 128 {
      Varint32FromFits(s[1..], 1, s[0] - 128);
    }
  }

  lemma {:induction false} Varint32FromIsLocal(s: seq<byte>, k: nat, result: nat, t: seq<byte>)
    requires k >= 1 && Varint32From(s, k, result).Value32?
    ensures var r := Varint32From(s, k, result); Varint32From(s + t, k, result) == Value32(r.value, r.rest + t)
    decreases |s|
  {
    assert (s + t)[1..] == s[1..] + t;
    if s[0] >= 128 {
      Varint32FromIsLocal(s[1..], k + 1, if k >= 5 then result else result + Shift32(s[0], k), t);
    }
  }

  lemma Varint32IsLocal(s: seq<byte>, t: seq<byte>)
    requires ReadVarint32(s).Value32?
    ensures ReadVarint32(s + t) == Value32(ReadVarint32(s).value, ReadVarint32(s).rest + t)
  {
    assert (s + t)[1..] == s[1..] + t;
    if s[0] >= 128 {
      Varint32FromIsLocal(s[1..], 1, s[0] - 128, t);
    }
  }

  // ----- zigzag

  function U64(n: int): nat
    requires -TWO_63 <= n < TWO_64
  {
    if n < 0 then n + TWO_64 else n
  }

  function S64(u: nat): int
    requires u < TWO_64
  {
    if u >= TWO_63 then u - TWO_64 else u
  }

  function Not64(u: nat): nat
    requires u < TWO_64
  {
    TWO_64 - 1 - u
  }

  function ZigZag(n: int): (z: nat)
    requires -TWO_63 <= n < TWO_63
    ensures z < TWO_64
  {
    var doubled := U64(n) * 2 % TWO_64;
    if n < 0 then Not64(doubled) else doubled
  }

  function UnZigZag(z: nat): int
    requires z < TWO_64
  {
    if z % 2 == 1 then S64(Not64(z / 2)) else S64(z / 2)
  }

  /** Zigzag is a bijection between signed and unsigned 64-bit numbers, and keeps small magnitudes small. */
  lemma ZigZagRoundTrip(n: int, z: nat)
    requires -TWO_63 <= n < TWO_63 && z < TWO_64
    ensures UnZigZag(ZigZag(n)) == n
    ensures -TWO_63 <= UnZigZag(z) < TWO_63 && ZigZag(UnZigZag(z)) == z
    ensures ZigZag(n) == if n < 0 then -2 * n - 1 else 2 * n
  {
  }

  // ----- fixed width

  function EncFixed(n: nat, width: nat): (s: seq<byte>)
    ensures |s| == width
  {
    if width == 0 then [] else [n % 256] + EncFixed(n / 256, width - 1)
  }

  function FromFixed(s: seq<byte>): nat {
    if s == [] then 0 else s[0] + 256 * FromFixed(s[1..])
  }

  /** Byte `k` has the weight 256^k. */
  lemma {:induction false} FixedAt(n: nat, width: nat, k: nat)
    requires k < width
    ensures EncFixed(n, width)[k] == n / Pow256(k) % 256
    decreases width
  {
    if k > 0 {
      FixedAt(n / 256, width - 1, k - 1);
      DivideTwice(n, Pow256(k - 1));
    }
  }

  lemma {:induction false} FixedRoundTrip(n: nat, width: nat)
    requires n < Pow256(width)
    ensures FromFixed(EncFixed(n, width)) == n
  {
    if width > 0 {
      FixedRoundTrip(n / 256, width - 1);
    }
  }

  lemma {:induction false} FixedFits(s: seq<byte>)
    ensures FromFixed(s) < Pow256(|s|)
  {
    if s != [] {
      FixedFits(s[1..]);
    }
  }

  // ----- raw bytes and length prefixes

  function ReadBytes(s: seq<byte>, n: nat): Read<seq<byte>> {
    if n <= |s| then Got(s[..n], s[n..]) else Bad
  }

  function ReadLength(s: seq<byte>): Read<nat> {
    match ReadVarint32(s)
    case Value32(v, rest) => Got(v, rest)
    case _ => Bad
  }

  /** A length prefix and that many bytes. */
  function ReadString(s: seq<byte>): Read<seq<byte>> {
    match ReadLength(s)
    case Got(n, rest) => ReadBytes(rest, n)
    case Bad => Bad
  }

  function EncString(s: seq<byte>): (r: seq<byte>)
    ensures |r| > |s|
  {
    EncVarint(|s|) + s
  }

  lemma StringRoundTrip(s: seq<byte>, t: seq<byte>)
    requires |s| < TWO_32
    ensures ReadLength(EncString(s) + t) == Got(|s|, s + t)
    ensures ReadString(EncString(s) + t) == Got(s, t)
  {
    hide EncVarint, ReadVarint32;
    assert EncString(s) + t == EncVarint(|s|) + (s + t);
    Varint32RoundTrip(|s|, s + t);
    assert (s + t)[..|s|] == s && (s + t)[|s|..] == t;
  }

  lemma ReadStringShrinks(s: seq<byte>)
    ensures ReadLength(s).Got? ==> |ReadLength(s).rest| < |s|
    ensures ReadString(s).Got? ==> |ReadString(s).value| + |ReadString(s).rest| < |s|
  {
    hide ReadVarint32;
    ReadVarint32Fits(s);
  }

  lemma StringIsLocal(s: seq<byte>, t: seq<byte>)
    ensures ReadLength(s).Got? ==> ReadLength(s + t) == Got(ReadLength(s).value, ReadLength(s).rest + t)
    ensures ReadString(s).Got? ==> ReadString(s + t) == Got(ReadString(s).value, ReadString(s).rest + t)
  {
    hide ReadVarint32;
    if ReadLength(s).Got? {
      Varint32IsLocal(s, t);
      var n, rest := ReadLength(s).value, ReadLength(s).rest;
      if n <= |rest| {
        assert (rest + t)[..n] == rest[..n];
        assert (rest + t)[n..] == rest[n..] + t;
      }
    }
  }

  // ----- skipping

  datatype WireType = VarintWt | Fixed64Wt | StringWt | Fixed32Wt | OtherWt

  function WireTypeOf(n: nat): WireType {
    if n == 0 then VarintWt else if n == 1 then Fixed64Wt else if n == 2 then StringWt else if n == 5 then Fixed32Wt
    else OtherWt
  }

  /** `pb_skip_varint`: any number of bytes with the top bit set, and one without. */
  function SkipVarint(s: seq<byte>): Read<()> {
    if s == [] then Bad else if s[0] < 128 then Got((), s[1..]) else SkipVarint(s[1..])
  }

  /** `pb_skip_field`. */
  function Skip(wt: WireType, s: seq<byte>): Read<()> {
    match wt
    case VarintWt => SkipVarint(s)
    case Fixed64Wt => if |s| >= 8 then Got((), s[8..]) else Bad
    case StringWt => (match ReadString(s) case Got(_, rest) => Got((), rest) case Bad => Bad)
    case Fixed32Wt => if |s| >= 4 then Got((), s[4..]) else Bad
    case OtherWt => Bad
  }

  lemma {:induction false} SkipVarintIsLocal(s: seq<byte>, t: seq<byte>)
    ensures SkipVarint(s).Got? ==> SkipVarint(s + t) == Got((), SkipVarint(s).rest + t) && |SkipVarint(s).rest| < |s|
    decreases |s|
  {
    if s != [] {
      assert (s + t)[1..] == s[1..] + t;
      if s[0] >= 128 {
        SkipVarintIsLocal(s[1..], t);
      }
    }
  }

  /** Skipping a varint drops exactly the varint. */
  lemma {:induction false} SkipEncVarint(v: nat, t: seq<byte>)
    ensures SkipVarint(EncVarint(v) + t) == Got((), t)
    decreases v
  {
    var s := EncVarint(v) + t;
    if v < 128 {
      assert s[1..] == t;
    } else {
      SkipEncVarint(v / 128, t);
      assert s[1..] == EncVarint(v / 128) + t;
    }
  }

  lemma SkipIsLocal(wt: WireType, s: seq<byte>, t: seq<byte>)
    requires Skip(wt, s).Got?
    ensures Skip(wt, s + t) == Got((), Skip(wt, s).rest + t) && |Skip(wt, s).rest| < |s|
  {
    hide SkipVarint, ReadString;
    SkipVarintIsLocal(s, t);
    StringIsLocal(s, t);
    ReadStringShrinks(s);
    if wt == Fixed64Wt {
      assert (s + t)[8..] == s[8..] + t;
    }
    if wt == Fixed32Wt {
      assert (s + t)[4..] == s[4..] + t;
    }
  }

  // ----- raw values

  /** Up to ten bytes of a varint, as they are. */
  function RawVarint(s: seq<byte>, k: nat): Read<seq<byte>>
    decreases |s|
  {
    if k >= 10 || s == [] then Bad
    else if s[0] < 128 then Got([s[0]], s[1..])
    else
      match RawVarint(s[1..], k + 1)
      case Got(raw, rest) => Got([s[0]] + raw, rest)
      case Bad => Bad
  }

  /** `read_raw_value`. */
  function ReadRaw(wt: WireType, s: seq<byte>): Read<seq<byte>> {
    match wt
    case VarintWt => RawVarint(s, 0)
    case Fixed64Wt => ReadBytes(s, 8)
    case Fixed32Wt => ReadBytes(s, 4)
    case _ => Bad
  }

  lemma {:induction false} RawVarintIsLocal(s: seq<byte>, k: nat, t: seq<byte>)
    requires RawVarint(s, k).Got?
    ensures RawVarint(s + t, k) == Got(RawVarint(s, k).value, RawVarint(s, k).rest + t)
    ensures |RawVarint(s, k).rest| < |s|
    decreases |s|
  {
    assert (s + t)[1..] == s[1..] + t;
    if s[0] >= 128 {
      RawVarintIsLocal(s[1..], k + 1, t);
    }
  }

  lemma RawIsLocal(wt: WireType, s: seq<byte>, t: seq<byte>)
    requires ReadRaw(wt, s).Got?
    ensures ReadRaw(wt, s + t) == Got(ReadRaw(wt, s).value, ReadRaw(wt, s).rest + t)
    ensures |ReadRaw(wt, s).rest| < |s|
  {
    hide RawVarint;
    if wt == VarintWt {
      RawVarintIsLocal(s, 0, t);
    } else {
      var n := if wt == Fixed64Wt then 8 else 4;
      assert (s + t)[..n] == s[..n] && (s + t)[n..] == s[n..] + t;
    }
  }

  lemma {:induction false} RawVarintIsSkipped(s: seq<byte>, k: nat)
    requires RawVarint(s, k).Got?
    ensures var raw, rest := RawVarint(s, k).value, RawVarint(s, k).rest;
            s == raw + rest && SkipVarint(s) == Got((), rest) && |raw| + k <= 10
    decreases |s|
  {
    if s[0] >= 128 {
      RawVarintIsSkipped(s[1..], k + 1);
      assert s == [s[0]] + s[1..];
    } else {
      assert s == [s[0]] + s[1..];
    }
  }

  /** A raw value is what skipping would drop, at most ten bytes of it. */
  lemma RawIsWhatIsSkipped(wt: WireType, s: seq<byte>)
    requires ReadRaw(wt, s).Got?
    ensures var raw, rest := ReadRaw(wt, s).value, ReadRaw(wt, s).rest;
            s == raw + rest && Skip(wt, s) == Got((), rest) && 0 < |raw| <= 10
    ensures wt == Fixed32Wt ==> |ReadRaw(wt, s).value| == 4
    ensures wt == Fixed64Wt ==> |ReadRaw(wt, s).value| == 8
  {
    hide RawVarint, SkipVarint;
    if wt == VarintWt {
      RawVarintIsSkipped(s, 0);
      RawVarintIsLocal(s, 0, []);
    }
  }
}
