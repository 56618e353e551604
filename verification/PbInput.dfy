/** The input stream and its primitive readers. */
module PbInput {
  import opened Bytes
  import opened PbWire

  /** Seven bits of `b` shifted up by 7 * `k`, in 64 bits. */
  function Shift64(b: byte, k: nat): nat { b % 128 * Pow128(k) % TWO_64 }

  lemma Pow128Values()
    ensures Pow128(1) == 0x80 && Pow128(2) == 0x4000 && Pow128(3) == 0x20_0000 && Pow128(4) == 0x1000_0000
    ensures Pow128(5) == 0x8_0000_0000 && Pow128(6) == 0x400_0000_0000 && Pow128(7) == 0x2_0000_0000_0000
    ensures Pow128(8) == 0x100_0000_0000_0000 && Pow128(9) == 0x8000_0000_0000_0000
  {
    assert Pow128(3) == 128 * Pow128(2);
    assert Pow128(5) == 128 * Pow128(4);
    assert Pow128(7) == 128 * Pow128(6);
    assert Pow128(9) == 128 * Pow128(8);
  }

  /** Only in the tenth byte bits are lost: all but the lowest. */
  lemma Shift64Is(b: byte, k: nat)
    requires k < 10
    ensures Shift64(b, k) == if k == 9 then b % 2 * TWO_63 else b % 128 * Pow128(k)
  {
    Pow128Values();
    var x := b % 128;
    if k == 0 {} else if k == 1 {} else if k == 2 {} else if k == 3 {} else if k == 4 {}
    else if k == 5 {} else if k == 6 {} else if k == 7 {} else if k == 8 {}
    else {
      assert x * TWO_63 == x / 2 * TWO_64 + x % 2 * TWO_63;
    }
  }

  function Times(a: nat, b: nat): nat { a * b }

  /** `result` holds the first `k` groups of bits; `r` is what the remaining bytes yield. */
  function Accumulate(result: nat, k: nat, r: Read<nat>): Read<nat> {
    match r
    case Got(v, rest) => Got(result + Times(Pow128(k), v), rest)
    case Bad => Bad
  }

  lemma TimesStep(k: nat, b: nat, v: nat)
    ensures Times(Pow128(k), b + 128 * v) == b * Pow128(k) + Times(Pow128(k + 1), v)
  {
    var p := Pow128(k);
    assert Pow128(k + 1) == 128 * p;
    assert p * (b + 128 * v) == b * p + 128 * p * v;
  }

  lemma TimesLast(k: nat, b: byte)
    requires k < 10
    ensures Times(Pow128(k), if k == 9 then b % 2 else b % 128) == Shift64(b, k)
  {
    Shift64Is(b, k);
    if k == 9 {
      Pow128Values();
    }
  }

  lemma AccumulateByte(s: seq<byte>, k: nat, result: nat)
    requires k < 10 && s != []
    ensures Accumulate(result, k, VarintFrom(s, k)) ==
            if s[0] >= 128 then Accumulate(result + Shift64(s[0], k), k + 1, VarintFrom(s[1..], k + 1))
            else Got(result + Shift64(s[0], k), s[1..])
  {
    hide Shift64, Pow128, Times;
    Shift64Is(s[0], k);
    if s[0] >= 128 {
      NoMoreBytes(s[1..], k + 1);
      if VarintFrom(s[1..], k + 1).Got? {
        TimesStep(k, s[0] - 128, VarintFrom(s[1..], k + 1).value);
      }
    } else {
      TimesLast(k, s[0]);
    }
  }

  class IStream {
    const data: seq<byte>
    var pos: nat              // `state`
    var bytesLeft: nat

    ghost predicate Valid()
      reads this
    {
      pos + bytesLeft <= |data|
    }

    ghost function End(): nat
      reads this
    {
      pos + bytesLeft
    }

    ghost function Rest(): seq<byte>
      requires Valid()
      reads this
    {
      data[pos..pos + bytesLeft]
    }

    constructor (data: seq<byte>, pos: nat, size: nat)
      requires pos + size <= |data|
      ensures Valid() && this.data == data && this.pos == pos && bytesLeft == size
    {
      this.data, this.pos, bytesLeft := data, pos, size;
    }

    /** `pb_readbyte`. */
    method ReadByte() returns (ok: bool, b: byte)
      requires Valid()
      modifies this
      ensures Valid() && End() == old(End()) && ok == (old(Rest()) != [])
      ensures if ok then b == old(Rest())[0] && Rest() == old(Rest())[1..] else Rest() == old(Rest())
    {
      if bytesLeft == 0 {
        return false, 0;
      }
      b := data[pos];
      pos, bytesLeft := pos + 1, bytesLeft - 1;
      ok := true;
    }

    /** `pb_read`. */
    method Read(n: nat) returns (ok: bool, b: seq<byte>)
      requires Valid()
      modifies this
      ensures Valid() && End() == old(End()) && ok == ReadBytes(old(Rest()), n).Got?
      ensures if ok then ReadBytes(old(Rest()), n) == Got(b, Rest()) else Rest() == old(Rest())
    {
      if bytesLeft < n {
        return false, [];
      }
      b := data[pos..pos + n];
      pos, bytesLeft := pos + n, bytesLeft - n;
      ok := true;
      assert b == old(Rest())[..n] && Rest() == old(Rest())[n..];
    }

    /** `pb_decode_varint32_eof`. */
    method DecodeVarint32() returns (ok: bool, v: nat, eof: bool)
      requires Valid()
      modifies this
      ensures Valid() && End() == old(End())
      ensures ok == ReadVarint32(old(Rest())).Value32? && eof == ReadVarint32(old(Rest())).Eof?
      ensures ok ==> ReadVarint32(old(Rest())) == Value32(v, Rest())
    {
      hide Varint32From, Shift32;
      var b;
      ok, b := ReadByte();
      if !ok {
        return false, 0, true;
      }
      if b < 128 {
        return true, b, false;
      }
      ghost var k := 1;
      var bitpos: nat := 7;
      var result: nat := b % 128;
      while true
        invariant Valid() && End() == old(End())
        invariant 1 <= k && bitpos == 7 * k
        invariant ReadVarint32(old(Rest())) == Varint32From(Rest(), k, result)
        decreases bytesLeft
      {
        Varint32Step(Rest(), k, result);
        ok, b := ReadByte();
        if !ok {
          return false, 0, false;
        }
        if bitpos >= 32 {
          var signExtension := if bitpos < 63 then 0xFF else 0x01;
          if b % 128 != 0 && (result / 0x8000_0000 == 0 || b != signExtension) {
            return false, 0, false;
          }
        } else {
          result := result + Shift32(b, bitpos / 7);
        }
        bitpos := bitpos + 7;
        k := k + 1;
        if b < 128 {
          break;
        }
      }
      if bitpos == 35 && b / 16 % 8 != 0 {
        return false, 0, false;
      }
      return true, result, false;
    }

    /** `pb_decode_varint`. */
    method DecodeVarint() returns (ok: bool, v: nat)
      requires Valid()
      modifies this
      ensures Valid() && End() == old(End()) && ok == ReadVarint(old(Rest())).Got?
      ensures ok ==> ReadVarint(old(Rest())) == Got(v, Rest())
    {
      hide VarintFrom, Shift64;
      ghost var k := 0;
      var bitpos: nat := 0;
      v := 0;
      StartAccumulating(Rest());
      while true
        invariant Valid() && End() == old(End())
        invariant bitpos == 7 * k
        invariant ReadVarint(old(Rest())) == Accumulate(v, k, VarintFrom(Rest(), k))
        decreases bytesLeft
      {
        NoMoreBytes(Rest(), k);
        if bitpos >= 64 {
          return false, 0;
        }
        ghost var s := Rest();
        var b;
        ok, b := ReadByte();
        if !ok {
          return false, 0;
        }
        AccumulateByte(s, k, v);
        v := v + Shift64(b, bitpos / 7);
        bitpos := bitpos + 7;
        k := k + 1;
        if b < 128 {
          break;
        }
      }
      ok := true;
    }

    /** `pb_decode_svarint`. */
    method DecodeSVarint() returns (ok: bool, n: int)
      requires Valid()
      modifies this
      ensures Valid() && End() == old(End()) && ok == ReadVarint(old(Rest())).Got?
      ensures ok ==> -TWO_63 <= n < TWO_63 && ReadVarint(old(Rest())) == Got(ZigZag(n), Rest())
    {
      hide ReadVarint;
      ReadVarintFits(Rest());
      var value;
      ok, value := DecodeVarint();
      if !ok {
        return false, 0;
      }
      n := if value % 2 == 1 then S64(Not64(value / 2)) else S64(value / 2);
      ZigZagRoundTrip(0, value);
    }

    /** `pb_skip_varint`. */
    method DropVarint() returns (ok: bool)
      requires Valid()
      modifies this
      ensures Valid() && End() == old(End()) && ok == SkipVarint(old(Rest())).Got?
      ensures ok ==> SkipVarint(old(Rest())) == Got((), Rest())
    {
      while true
        invariant Valid() && End() == old(End())
        invariant SkipVarint(old(Rest())) == SkipVarint(Rest())
        decreases bytesLeft
      {
        var b;
        ok, b := ReadByte();
        if !ok {
          return;
        }
        if b < 128 {
          return;
        }
      }
    }

    method DecodeLength() returns (ok: bool, n: nat)
      requires Valid()
      modifies this
      ensures Valid() && End() == old(End()) && ok == ReadLength(old(Rest())).Got?
      ensures ok ==> ReadLength(old(Rest())) == Got(n, Rest())
    {
      hide ReadVarint32;
      var eof;
      ok, n, eof := DecodeVarint32();
    }

    /** `pb_skip_field`. */
    method SkipField(wt: WireType) returns (ok: bool)
      requires Valid()
      modifies this
      ensures Valid() && End() == old(End()) && ok == Skip(wt, old(Rest())).Got?
      ensures ok ==> Skip(wt, old(Rest())) == Got((), Rest())
    {
      hide SkipVarint, ReadLength;
      match wt
      case VarintWt =>
        ok := DropVarint();
      case Fixed64Wt =>
        var skipped;
        ok, skipped := Read(8);
      case StringWt =>
        var length;
        ok, length := DecodeLength();
        if ok {
          var skipped;
          ok, skipped := Read(length);
        }
      case Fixed32Wt =>
        var skipped;
        ok, skipped := Read(4);
      case OtherWt =>
        ok := false;
    }

    /** The varint case of `read_raw_value`: the bytes go to a buffer of ten. */
    method ReadRawVarint() returns (ok: bool, raw: seq<byte>)
      requires Valid()
      modifies this
      ensures Valid() && End() == old(End()) && ok == RawVarint(old(Rest()), 0).Got?
      ensures ok ==> RawVarint(old(Rest()), 0) == Got(raw, Rest())
    {
      hide RawVarint;
      raw := [];
      var size := 0;
      StartRaw(Rest());
      while true
        invariant Valid() && End() == old(End()) && size == |raw| <= 10
        invariant RawVarint(old(Rest()), 0) == After(raw, RawVarint(Rest(), size))
        decreases bytesLeft
      {
        OneRawByte(Rest(), size, raw);
        size := size + 1;
        if size > 10 {
          return false, raw;
        }
        var b;
        ok, b := ReadByte();
        if !ok {
          return;
        }
        raw := raw + [b];
        if b < 128 {
          return;
        }
      }
    }

    /** `read_raw_value`. */
    method ReadRawValue(wt: WireType) returns (ok: bool, raw: seq<byte>)
      requires Valid()
      modifies this
      ensures Valid() && End() == old(End()) && ok == ReadRaw(wt, old(Rest())).Got?
      ensures ok ==> ReadRaw(wt, old(Rest())) == Got(raw, Rest())
    {
      hide RawVarint;
      match wt
      case VarintWt =>
        ok, raw := ReadRawVarint();
      case Fixed64Wt =>
        ok, raw := Read(8);
      case Fixed32Wt =>
        ok, raw := Read(4);
      case StringWt =>
        return false, [];
      case OtherWt =>
        return false, [];
    }

    /**
      * `pb_make_string_substream`: the bytes of a length-prefixed string become a stream of their own. The parent
      * stays where the string begins, with only what follows the string left, until the substream is closed.
      */
    method MakeSubstream() returns (ok: bool, substream: IStream)
      requires Valid()
      modifies this
      ensures Valid() && End() <= old(End()) && fresh(substream)
      ensures ok == ReadString(old(Rest())).Got?
      ensures ok ==>
                && substream.Valid() && substream.data == data && substream.End() + bytesLeft == old(End())
                && substream.Rest() == ReadString(old(Rest())).value
                && data[substream.End()..old(End())] == ReadString(old(Rest())).rest
                && substream.bytesLeft + bytesLeft < old(bytesLeft)
    {
      hide ReadLength;
      ReadStringShrinks(Rest());
      var size;
      ok, size := DecodeLength();
      substream := new IStream(data, pos, if size <= bytesLeft && ok then size else 0);
      if !ok {
        return;
      }
      if bytesLeft < size {
        ok := false;
        return;
      }
      assert Rest()[..size] == substream.Rest();
      assert Rest()[size..] == data[substream.End()..End()];
      bytesLeft := bytesLeft - size;
    }

    /** `pb_close_string_substream`: what the substream left unread is skipped. */
    method CloseSubstream(substream: IStream)
      requires Valid() && substream.Valid() && substream != this && substream.data == data
      requires substream.End() + bytesLeft <= |data|
      modifies this, substream
      ensures Valid() && pos == old(substream.End()) && bytesLeft == old(bytesLeft)
    {
      if substream.bytesLeft != 0 {
        var ok, skipped := substream.Read(substream.bytesLeft);
        assert |substream.Rest()| == 0;
      }
      pos := substream.pos;
    }
  }

  /** `raw` has been read already. */
  function After(raw: seq<byte>, r: Read<seq<byte>>): Read<seq<byte>> {
    match r
    case Got(more, rest) => Got(raw + more, rest)
    case Bad => Bad
  }

  lemma StartRaw(s: seq<byte>)
    ensures RawVarint(s, 0) == After([], RawVarint(s, 0))
  {
    if RawVarint(s, 0).Got? {
      assert [] + RawVarint(s, 0).value == RawVarint(s, 0).value;
    }
  }

  lemma OneRawByte(s: seq<byte>, k: nat, raw: seq<byte>)
    ensures After(raw, RawVarint(s, k)) ==
            if k >= 10 || s == [] then Bad
            else if s[0] < 128 then Got(raw + [s[0]], s[1..])
            else After(raw + [s[0]], RawVarint(s[1..], k + 1))
  {
    if k < 10 && s != [] && s[0] >= 128 && RawVarint(s[1..], k + 1).Got? {
      assert raw + ([s[0]] + RawVarint(s[1..], k + 1).value) == raw + [s[0]] + RawVarint(s[1..], k + 1).value;
    }
  }

  /** One turn of the loop of `pb_decode_varint32_eof`. */
  lemma Varint32Step(s: seq<byte>, k: nat, result: nat)
    requires k >= 1
    ensures s == [] ==> Varint32From(s, k, result) == Bad32
    ensures s != [] ==>
              var b := s[0];
              var sign := if 7 * k < 63 then 0xFF else 0x01;
              Varint32From(s, k, result) ==
              if k >= 5 && b % 128 != 0 && (result / 0x8000_0000 == 0 || b != sign) then Bad32
              else
                var result' := if k >= 5 then result else result + Shift32(b, k);
                if b >= 128 then Varint32From(s[1..], k + 1, result')
                else if k == 4 && b / 16 % 8 != 0 then Bad32
                else Value32(result', s[1..])
  {
    hide Shift32;
  }

  lemma StartAccumulating(s: seq<byte>)
    ensures ReadVarint(s) == Accumulate(0, 0, VarintFrom(s, 0))
  {
    assert Pow128(0) == 1;
  }

  lemma NoMoreBytes(s: seq<byte>, k: nat)
    ensures k >= 10 || s == [] ==> VarintFrom(s, k) == Bad
  {
  }
}
