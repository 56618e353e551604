/** `isValidUtf8`: the validator applied to every text message before it is delivered. */
module Utf8 {
  import opened Bytes

  /** The Unicode scalar values: every code point except the surrogates. */
  type Scalar = v: int | 0 <= v < 0xD800 || 0xE000 <= v <= 0x10FFFF

  /** The UTF-8 encoding of one scalar value, by the table in section 3 of RFC 3629. */
  function Encode(v: Scalar): seq<byte> {
    if v < 0x80 then [v]
    else if v < 0x800 then [0xC0 + v / 64, 0x80 + v % 64]
    else if v < 0x10000 then [0xE0 + v / 4096, 0x80 + v / 64 % 64, 0x80 + v % 64]
    else [0xF0 + v / 262144, 0x80 + v / 4096 % 64, 0x80 + v / 64 % 64, 0x80 + v % 64]
  }

  function EncodeAll(vs: seq<Scalar>): seq<byte> {
    if vs == [] then [] else Encode(vs[0]) + EncodeAll(vs[1..])
  }

  /** `s` is the encoding of some text. */
  ghost predicate IsUtf8(s: seq<byte>) {
    exists vs: seq<Scalar> :: EncodeAll(vs) == s
  }

  predicate Continuation(b: byte) { b / 64 == 2 }  // (b & 0xc0) == 0x80

  /** The length of the encoding that `s` starts with, or 0 when it starts with none. */
  function LeadLength(s: seq<byte>): nat {
    if |s| >= 1 && s[0] < 0x80 then 1
    else if |s| >= 2 && 0xC2 <= s[0] <= 0xDF && Continuation(s[1]) then 2
    else if |s| >= 3 && 0xE0 <= s[0] <= 0xEF && Continuation(s[1]) && Continuation(s[2])
            && !(s[0] == 0xE0 && s[1] < 0xA0) && !(s[0] == 0xED && s[1] >= 0xA0) then 3
    else if |s| >= 4 && 0xF0 <= s[0] <= 0xF4 && Continuation(s[1]) && Continuation(s[2]) && Continuation(s[3])
            && !(s[0] == 0xF0 && s[1] < 0x90) && !(s[0] == 0xF4 && s[1] > 0x8F) then 4
    else 0
  }

  lemma LeadLengthOfEncoding(v: Scalar, rest: seq<byte>)
    ensures LeadLength(Encode(v) + rest) == |Encode(v)|
  {
  }

  /** Splitting a number off its last base-64 digit. */
  lemma LastDigit(high: nat, digit: nat)
    requires digit < 64
    ensures (high * 64 + digit) / 64 == high && (high * 64 + digit) % 64 == digit
  {
  }

  lemma LeadDecodes(s: seq<byte>) returns (v: Scalar)
    requires LeadLength(s) > 0
    ensures LeadLength(s) <= |s| && Encode(v) == s[..LeadLength(s)]
  {
    match LeadLength(s) {
      case 1 => v := s[0];
      case 2 => v := DecodeTwo(s);
      case 3 => v := DecodeThree(s);
      case _ => v := DecodeFour(s);
    }
  }

  lemma DecodeTwo(s: seq<byte>) returns (v: Scalar)
    requires LeadLength(s) == 2
    ensures Encode(v) == s[..2]
  {
    var x: int, y: int := s[0] - 0xC0, s[1] - 0x80;
    LastDigit(x, y);
    v := x * 64 + y;
  }

  lemma DecodeThree(s: seq<byte>) returns (v: Scalar)
    requires LeadLength(s) == 3
    ensures Encode(v) == s[..3]
  {
    var x: int, y: int, z: int := s[0] - 0xE0, s[1] - 0x80, s[2] - 0x80;
    LastDigit(x, y);
    LastDigit(x * 64 + y, z);
    v := (x * 64 + y) * 64 + z;
    assert v / 4096 == x;
  }

  lemma DecodeFour(s: seq<byte>) returns (v: Scalar)
    requires LeadLength(s) == 4
    ensures Encode(v) == s[..4]
  {
    var x: int, y: int, z: int, w: int := s[0] - 0xF0, s[1] - 0x80, s[2] - 0x80, s[3] - 0x80;
    var high: int := x * 64 + y;
    LastDigit(x, y);
    LastDigit(high, z);
    LastDigit(high * 64 + z, w);
    v := (high * 64 + z) * 64 + w;
    assert v / 4096 == high;
    assert v / 262144 == x;
  }

  /** One encoding can be cut off the front of any text, and nothing else can. */
  lemma Unfold(s: seq<byte>)
    requires s != []
    ensures IsUtf8(s) <==> LeadLength(s) > 0 && IsUtf8(s[LeadLength(s)..])
  {
    if IsUtf8(s) {
      var vs: seq<Scalar> :| EncodeAll(vs) == s;
      LeadLengthOfEncoding(vs[0], EncodeAll(vs[1..]));
      assert s[LeadLength(s)..] == EncodeAll(vs[1..]);
    }
    if LeadLength(s) > 0 && IsUtf8(s[LeadLength(s)..]) {
      var n := LeadLength(s);
      var v := LeadDecodes(s);
      var vs: seq<Scalar> :| EncodeAll(vs) == s[n..];
      assert ([v] + vs)[1..] == vs;
      assert EncodeAll([v] + vs) == s[..n] + s[n..] == s;
    }
  }

  lemma EmptyIsUtf8()
    ensures IsUtf8([])
  {
    assert EncodeAll([]) == [];
  }

  lemma Skip(s: seq<byte>, i: nat, n: nat)
    requires i < |s| && n == LeadLength(s[i..])
    ensures n <= |s| - i
    ensures IsUtf8(s[i..]) <==> n > 0 && IsUtf8(s[i + n..])
  {
    Unfold(s[i..]);
    if n > 0 {
      assert s[i..][n..] == s[i + n..];
    }
  }

  /** Skipping one ASCII octet does not change whether the rest is text. */
  lemma SkipAscii(s: seq<byte>, i: nat)
    requires i < |s| && s[i] < 0x80
    ensures IsUtf8(s[i..]) <==> IsUtf8(s[i + 1..])
  {
    Skip(s, i, 1);
  }

  lemma SkipFourAscii(s: seq<byte>, i: nat)
    requires i + 4 <= |s| && s[i] < 0x80 && s[i + 1] < 0x80 && s[i + 2] < 0x80 && s[i + 3] < 0x80
    ensures IsUtf8(s[i..]) <==> IsUtf8(s[i + 4..])
  {
    SkipAscii(s, i); SkipAscii(s, i + 1); SkipAscii(s, i + 2); SkipAscii(s, i + 3);
  }

  // ----- the standard

  /** The six bits that an octet behind the first adds to a number. */
  function SixBits(b: byte): int { b as int % 64 }

  /**
    * The table of section 3 of RFC 3629: which form a number has, the leading bits of its octets, and the bits of the
    * number that they hold.
    */
  ghost predicate Standard(v: Scalar, e: seq<byte>) {
    && (forall i | 1 <= i < |e| :: e[i] / 64 == 2)
    && if v <= 0x7F then |e| == 1 && e[0] == v
       else if v <= 0x7FF then |e| == 2 && e[0] / 32 == 6 && v == e[0] as int % 32 * 64 + SixBits(e[1])
       else if v <= 0xFFFF then
         |e| == 3 && e[0] / 16 == 14 && v == (e[0] as int % 16 * 64 + SixBits(e[1])) * 64 + SixBits(e[2])
       else
         && |e| == 4 && e[0] / 8 == 30
         && v == ((e[0] as int % 8 * 64 + SixBits(e[1])) * 64 + SixBits(e[2])) * 64 + SixBits(e[3])
  }

  lemma EncodingIsStandard(v: Scalar)
    ensures Standard(v, Encode(v))
  {
    Digits(v);
    if v > 0xFFFF {
      FirstOctet(v / 262144);
    }
  }

  /** A number by its digits in base 64. */
  lemma Digits(v: nat)
    ensures v == v / 64 * 64 + v % 64
    ensures v / 64 == v / 4096 * 64 + v / 64 % 64
    ensures v / 4096 == v / 262144 * 64 + v / 4096 % 64
  {
  }

  lemma FirstOctet(high: nat)
    requires high <= 4
    ensures (0xF0 + high) / 8 == 30 && (0xF0 + high) % 8 == high
  {
  }

  /** Characters of the examples in section 7. */
  lemma Characters()
    ensures Encode(0x41) == [0x41] && Encode(0x391) == [0xCE, 0x91] && Encode(0x2262) == [0xE2, 0x89, 0xA2]
    ensures Encode(0xD55C) == [0xED, 0x95, 0x9C] && Encode(0x65E5) == [0xE6, 0x97, 0xA5]
    ensures Encode(0x233B4) == [0xF0, 0xA3, 0x8E, 0xB4] && Encode(0xFEFF) == [0xEF, 0xBB, 0xBF]
  {
  }

  /** What section 3 forbids: overlong forms, surrogates, and numbers above 0x10FFFF; and the last ones before them. */
  lemma Illegal(rest: seq<byte>)
    ensures !IsUtf8([0xC0, 0x80] + rest) && !IsUtf8([0xC1, 0xBF] + rest) && !IsUtf8([0xE0, 0x9F, 0xBF] + rest)
    ensures !IsUtf8([0xED, 0xA1, 0x8C] + rest) && !IsUtf8([0xED, 0xBF, 0xBF] + rest)
    ensures !IsUtf8([0xF0, 0x8F, 0xBF, 0xBF] + rest) && !IsUtf8([0xF4, 0x90, 0x80, 0x80] + rest)
    ensures !IsUtf8([0x80] + rest) && !IsUtf8([0xFE] + rest) && !IsUtf8([0xFF] + rest)
    ensures Encode(0xD7FF) == [0xED, 0x9F, 0xBF] && Encode(0x10FFFF) == [0xF4, 0x8F, 0xBF, 0xBF]
  {
    hide IsUtf8;
    Unfold([0xC0, 0x80] + rest);
    Unfold([0xC1, 0xBF] + rest);
    Unfold([0xE0, 0x9F, 0xBF] + rest);
    Unfold([0xED, 0xA1, 0x8C] + rest);
    Unfold([0xED, 0xBF, 0xBF] + rest);
    Unfold([0xF0, 0x8F, 0xBF, 0xBF] + rest);
    Unfold([0xF4, 0x90, 0x80, 0x80] + rest);
    Unfold([0x80] + rest);
    Unfold([0xFE] + rest);
    Unfold([0xFF] + rest);
  }

  // ----- the code

  /** The three tests for sequences that start with an octet above 0x7f, as the source orders them. */
  method MultibyteLength(s: seq<byte>, i: nat) returns (n: nat)
    requires i < |s| && s[i] >= 0x80
    ensures n == LeadLength(s[i..])
  {
    var e := |s|;
    ghost var t := s[i..];
    assert t[0] == s[i] && |t| == e - i;
    assert i + 1 < e ==> t[1] == s[i + 1];
    assert i + 2 < e ==> t[2] == s[i + 2];
    assert i + 3 < e ==> t[3] == s[i + 3];
    if s[i] / 32 % 4 == 2 {                                   // (s[0] & 0x60) == 0x40
      if i + 1 >= e || !Continuation(s[i + 1]) || s[i] / 2 == 0x60 {
        return 0;
      }
      return 2;
    } else if s[i] / 16 == 0xE {                              // (s[0] & 0xf0) == 0xe0
      if i + 2 >= e || !Continuation(s[i + 1]) || !Continuation(s[i + 2])
         || (s[i] == 0xE0 && s[i + 1] / 32 == 4) || (s[i] == 0xED && s[i + 1] / 32 == 5) {
        return 0;
      }
      return 3;
    } else if s[i] / 8 == 0x1E {                              // (s[0] & 0xf8) == 0xf0
      if i + 3 >= e || !Continuation(s[i + 1]) || !Continuation(s[i + 2]) || !Continuation(s[i + 3])
         || (s[i] == 0xF0 && s[i + 1] / 16 == 8) || (s[i] == 0xF4 && s[i + 1] > 0x8F) || s[i] > 0xF4 {
        return 0;
      }
      return 4;
    } else {
      return 0;
    }
  }

  /** The loop of the source: four ASCII octets at a time, otherwise one sequence at a time. */
  method IsValidUtf8(s: seq<byte>) returns (valid: bool)
    ensures valid <==> IsUtf8(s)
  {
    hide IsUtf8, LeadLength;
    EmptyIsUtf8();
    var i, e := 0, |s|;
    while i != e
      invariant 0 <= i <= e
      invariant IsUtf8(s) <==> IsUtf8(s[i..])
      decreases e - i
    {
      if i + 4 <= e && s[i] < 0x80 && s[i + 1] < 0x80 && s[i + 2] < 0x80 && s[i + 3] < 0x80 {
        SkipFourAscii(s, i);
        i := i + 4;
      } else {
        while s[i] < 0x80
          invariant 0 <= i < e
          invariant IsUtf8(s) <==> IsUtf8(s[i..])
          decreases e - i
        {
          SkipAscii(s, i);
          i := i + 1;
          if i == e {
            assert s[i..] == [];
            return true;
          }
        }
        var n := MultibyteLength(s, i);
        Skip(s, i, n);
        if n == 0 {
          return false;
        }
        i := i + n;
      }
    }
    assert s[i..] == [];
    return true;
  }
}
