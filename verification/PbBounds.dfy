/**
  * The decoder never stores more than a field can hold: which numbers and strings are accepted, and that every message
  * it builds fits its struct, at every level.
  */
module PbBounds {
  import opened Bytes
  import opened PbWire
  import opened PbTable
  import opened PbEncode
  import opened PbDecode

  // ----- what is accepted

  lemma HalfIsPower(d: nat)
    requires ValidSize(d)
    ensures Half(d) == Pow2(8 * d - 1)
  {
    Pow2Values();
    assert Pow2(15) == 128 * Pow2(8) by { assert Pow2(11) == 8 * Pow2(8); }
    assert Pow2(23) == 256 * Pow2(15) by { assert Pow2(19) == 16 * Pow2(15); }
    assert Pow2(31) == 256 * Pow2(23) by { assert Pow2(27) == 16 * Pow2(23); }
    assert Pow2(39) == 256 * Pow2(31) by { assert Pow2(35) == 16 * Pow2(31); }
    assert Pow2(47) == 256 * Pow2(39) by { assert Pow2(43) == 16 * Pow2(39); }
    assert Pow2(55) == 256 * Pow2(47) by { assert Pow2(51) == 16 * Pow2(47); }
    assert Pow2(63) == 256 * Pow2(55) by { assert Pow2(59) == 16 * Pow2(55); }
  }

  /** `n` is a signed integer of `d` bytes. */
  predicate Signed(n: int, d: nat) { ValidSize(d) && -(Pow2(8 * d - 1) as int) <= n < Pow2(8 * d - 1) }
  predicate Unsigned(n: int, d: nat) { ValidSize(d) && 0 <= n < 2 * Pow2(8 * d - 1) }

  lemma CastInRange(n: int, d: nat)
    requires ValidSize(d)
    ensures Signed(Cast(n, d), d) && (Cast(n, d) == n <==> Signed(n, d))
  {
    HalfIsPower(d);
    if d == 1 {} else if d == 2 {} else if d == 4 {} else {}
  }

  /** A signed varint: below 64 bits its low 32 bits count, as a signed number that must fit the field. */
  lemma VarintAccepted(d: nat, x: nat)
    requires ValidSize(d) && x < TWO_64
    ensures var low: int := x % 0x1_0000_0000;
            var n := if d == 8 then (if x < 0x8000_0000_0000_0000 then x else x - 0x1_0000_0000_0000_0000)
                     else if low < 0x8000_0000 then low else low - 0x1_0000_0000;
            VarintValue(d, x) == if Signed(n, d) then Some(n) else None
  {
    var n := if d == 8 then S64(x) else Cast(x, 4);
    CastInRange(n, d);
  }

  lemma UVarintAccepted(d: nat, x: nat)
    requires ValidSize(d) && x < TWO_64
    ensures UVarintValue(d, x) == if Unsigned(x, d) then Some(x) else None
  {
    HalfIsPower(d);
    if d == 1 {} else if d == 2 {} else if d == 4 {} else {}
  }

  /** A zigzag number, 0, -1, 1, -2 and so on, must fit the field. */
  lemma SVarintAccepted(d: nat, x: nat)
    requires ValidSize(d) && x < TWO_64
    ensures var n := if x % 2 == 0 then x / 2 else -(x / 2) - 1;
            SVarintValue(d, x) == if Signed(n, d) then Some(n) else None
  {
    var n := UnZigZag(x);
    CastInRange(n, d);
  }

  /** Bytes and strings need one more byte in the struct than they have; fixed-length bytes may be left out. */
  lemma BlobAccepted(f: Field, b: seq<byte>, t: seq<byte>)
    requires f.ltype in {BytesField, StringField, FixedBytes} && f.dataSize <= SIZE_MAX && |b| < TWO_32
    ensures ReadBlob(f, EncString(b) + t) ==
            if f.ltype == FixedBytes then
              if |b| == f.dataSize then Got(Raw(b), t)
              else if |b| == 0 then Got(Raw(seq(f.dataSize, _ => 0)), t)
              else Bad
            else if |b| < f.dataSize then Got(Raw(if f.ltype == BytesField then b else b[..StrLen(b)] + [0]), t)
            else Bad
  {
    hide ReadLength, EncString, StrLen;
    StringRoundTrip(b, t);
    assert (b + t)[..|b|] == b && (b + t)[|b|..] == t;
    if f.ltype == FixedBytes && |b| == 0 {
      assert [] + t == t;
      assert f.dataSize == 0 ==> b == seq(f.dataSize, _ => 0);
    }
  }

  // ----- what a struct can hold

  predicate InBounds(f: Field, v: Value)
    decreases f, 0
  {
    match f.ltype
    case Varint => v.Int? && Signed(v.n, f.dataSize)
    case UVarint => v.Int? && Unsigned(v.n, f.dataSize)
    case SVarint => v.Int? && Signed(v.n, f.dataSize)
    case Fixed32 => v.Int? && 0 <= v.n < 0x1_0000_0000
    case Fixed64 => v.Int? && 0 <= v.n < 0x1_0000_0000_0000_0000
    case BytesField => v.Raw? && |v.b| < f.dataSize
    case StringField => v.Raw? && 0 < |v.b| <= f.dataSize && v.b[|v.b| - 1] == 0
    case FixedBytes => v.Raw? && |v.b| == f.dataSize
    case Submessage => v.Msg? && AllInBounds(f.sub, v.m)
  }

  predicate SlotInBounds(f: Field, slot: Slot)
    decreases f, 1
  {
    if f.atype == ByCallback then slot.Call?
    else
      match slot
      case Req(v) => f.htype == Required && InBounds(f, v)
      case Opt(_, v) => f.htype == Optional && InBounds(f, v)
      case Rep(vs) => f.htype == Repeated && |vs| <= f.arraySize && forall k | 0 <= k < |vs| :: InBounds(f, vs[k])
      case Call(_) => false
  }

  predicate AllInBounds(fields: seq<Field>, slots: seq<Slot>)
    decreases fields, 2
  {
    |slots| == |fields| && forall i | 0 <= i < |fields| :: SlotInBounds(fields[i], slots[i])
  }

  /** The initial values that the table gives fit their fields. */
  predicate InitsInBounds(fields: seq<Field>) {
    forall i | 0 <= i < |fields| :: InitInBounds(fields[i])
  }

  predicate InitInBounds(f: Field) {
    f.atype == Static ==> if f.ltype == Submessage then InitsInBounds(f.sub) else InBounds(f, f.init)
  }

  lemma DefaultsInBounds(fields: seq<Field>, dest: seq<Slot>)
    requires InitsInBounds(fields) && |dest| == |fields|
    ensures AllInBounds(fields, Defaults(fields, dest))
    decreases fields
  {
    hide InBounds;
    forall i | 0 <= i < |fields| ensures SlotInBounds(fields[i], InitSlot(fields[i], dest[i])) {
      var f := fields[i];
      assert InitInBounds(f);
      if f.atype == Static && f.htype != Repeated {
        if f.ltype == Submessage {
          DefaultsInBounds(f.sub, Inner(f, dest[i]));
          MessageInBounds(f, Defaults(f.sub, Inner(f, dest[i])));
        }
      }
    }
  }

  lemma MessageInBounds(f: Field, m: seq<Slot>)
    requires f.ltype == Submessage && AllInBounds(f.sub, m)
    ensures InBounds(f, Msg(m))
  {
  }

  // ----- decoding keeps to it

  lemma IntInBounds(f: Field, s: seq<byte>)
    requires f.ltype in {Varint, UVarint, SVarint} && ReadInt(f, s).Got?
    ensures InBounds(f, ReadInt(f, s).value)
  {
    hide VarintValue, UVarintValue, SVarintValue, Signed, Unsigned, ReadVarint;
    ReadVarintFits(s);
    var x := ReadVarint(s).value;
    InvalidSizes(f.dataSize, x);
    if ValidSize(f.dataSize) {
      VarintAccepted(f.dataSize, x);
      UVarintAccepted(f.dataSize, x);
      SVarintAccepted(f.dataSize, x);
    }
  }

  lemma InvalidSizes(d: nat, x: nat)
    requires x < TWO_64
    ensures !ValidSize(d) ==> VarintValue(d, x) == None && UVarintValue(d, x) == None && SVarintValue(d, x) == None
  {
  }

  lemma FixedInBounds(s: seq<byte>, width: nat)
    requires width == 4 || width == 8
    ensures ReadFixed(s, width).Got? ==>
              0 <= ReadFixed(s, width).value.n < if width == 4 then 0x1_0000_0000 else 0x1_0000_0000_0000_0000
  {
    Pow256Values();
    assert Pow256(4) == 0x1_0000 * Pow256(2);
    if |s| >= width {
      FixedFits(s[..width]);
    }
  }

  lemma ScalarInBounds(f: Field, s: seq<byte>)
    requires ReadScalar(f, s).Got?
    ensures InBounds(f, ReadScalar(f, s).value)
  {
    hide ReadInt, ReadFixed, ReadLength, StrLen;
    if f.ltype in {Varint, UVarint, SVarint} {
      IntInBounds(f, s);
    } else if f.ltype == Fixed32 {
      FixedInBounds(s, 4);
      FixedIsInt(s, 4);
    } else if f.ltype == Fixed64 {
      FixedInBounds(s, 8);
      FixedIsInt(s, 8);
    }
  }

  lemma FixedIsInt(s: seq<byte>, width: nat)
    ensures ReadFixed(s, width).Got? ==> ReadFixed(s, width).value.Int?
  {
  }

  lemma {:induction false} PackedInBounds(f: Field, vs: seq<Value>, s: seq<byte>)
    requires SlotInBounds(f, Rep(vs)) && f.atype == Static
    ensures ReadPacked(f, vs, s).Some? ==> SlotInBounds(f, Rep(ReadPacked(f, vs, s).value))
    decreases |s|
  {
    hide InBounds, ReadScalar;
    if s != [] && |vs| < f.arraySize && ReadScalar(f, s).Got? {
      ScalarInBounds(f, s);
      ScalarShrinks(f, s);
      PackedInBounds(f, vs + [ReadScalar(f, s).value], ReadScalar(f, s).rest);
    }
  }

  lemma ValueInBounds(f: Field, cur: Value, s: seq<byte>)
    requires WellFormedField(f) && f.atype == Static && InitInBounds(f) && (f.htype == Repeated || InBounds(f, cur))
    ensures ReadValue(f, cur, s).Got? ==> InBounds(f, ReadValue(f, cur, s).value)
    decreases |s|, 1
  {
    hide ReadScalar, ReadString, Defaults, WellFormed, InitsInBounds;
    if f.ltype != Submessage {
      if ReadScalar(f, s).Got? {
        ScalarInBounds(f, s);
      }
    } else {
      ReadStringShrinks(s);
      if ReadString(s).Got? {
        DefaultsInBounds(f.sub, Blank(f.sub));
        var start := if f.htype == Repeated then Defaults(f.sub, Blank(f.sub)) else cur.m;
        DecodedInBounds(f.sub, start, ReadString(s).value);
      }
    }
  }

  lemma StaticInBounds(f: Field, wt: WireType, slot: Slot, s: seq<byte>)
    requires WellFormedField(f) && f.atype == Static && InitInBounds(f) && SlotInBounds(f, slot)
    ensures ReadStatic(f, wt, slot, s).Got? ==> SlotInBounds(f, ReadStatic(f, wt, slot, s).value)
    decreases |s|, 2
  {
    hide ReadValue, ReadPacked, ReadString, InBounds, WellFormedField, InitInBounds;
    match slot
    case Req(v) => ValueInBounds(f, v, s);
    case Opt(_, v) => ValueInBounds(f, v, s);
    case Rep(vs) =>
      ValueInBounds(f, Int(0), s);
      if ReadString(s).Got? {
        PackedInBounds(f, vs, ReadString(s).value);
      }
  }

  lemma RecordInBounds(fields: seq<Field>, d: Dest, s: seq<byte>)
    requires WellFormed(fields) && InitsInBounds(fields) && Fits(fields, d) && AllInBounds(fields, d.slots) && s != []
    ensures OneRecord(fields, d, s).Next? ==> AllInBounds(fields, OneRecord(fields, d, s).d.slots)
    decreases |s|, 3
  {
    hide ReadVarint32, Skip, Lookup, ReadStatic, ReadCallback, WellFormed, SlotInBounds, InitInBounds;
    ReadVarint32Fits(s);
    if ReadVarint32(s).Value32? && ReadVarint32(s).value != 0 {
      var temp, rest := ReadVarint32(s).value, ReadVarint32(s).rest;
      var k := Lookup(fields, temp / 8);
      if k.Some? {
        FieldIsWellFormed(fields, k.value);
        FieldInBounds(fields[k.value], WireTypeOf(temp % 8), d.slots[k.value], rest);
      }
    }
  }

  lemma FieldInBounds(f: Field, wt: WireType, slot: Slot, s: seq<byte>)
    requires WellFormedField(f) && InitInBounds(f) && SlotInBounds(f, slot)
    ensures ReadField(f, wt, slot, s).Got? ==> SlotInBounds(f, ReadField(f, wt, slot, s).value)
    decreases |s|, 3
  {
    hide ReadStatic, WellFormedField, InitInBounds, Skip, ReadRaw, ReadString;
    if f.atype == Static {
      StaticInBounds(f, wt, slot, s);
    }
  }

  lemma ParseInBounds(fields: seq<Field>, d: Dest, s: seq<byte>)
    requires WellFormed(fields) && InitsInBounds(fields) && Fits(fields, d) && AllInBounds(fields, d.slots)
    ensures Parse(fields, d, s).Some? ==> AllInBounds(fields, Parse(fields, d, s).value.slots)
    decreases |s|, 4
  {
    hide OneRecord, WellFormed, AllInBounds, InitsInBounds;
    if s != [] {
      RecordInBounds(fields, d, s);
      var step := OneRecord(fields, d, s);
      if step.Next? {
        ParseInBounds(fields, step.d, step.rest);
      }
    }
  }

  /** Whatever the bytes are: a message that fits its struct still fits it after more has been decoded into it. */
  lemma DecodedInBounds(fields: seq<Field>, slots: seq<Slot>, s: seq<byte>)
    requires WellFormed(fields) && InitsInBounds(fields) && AllInBounds(fields, slots)
    ensures DecodeNoinit(fields, slots, s).Some? ==> AllInBounds(fields, DecodeNoinit(fields, slots, s).value)
    decreases |s|, 5
  {
    hide Parse, WellFormed, InitsInBounds;
    ParseInBounds(fields, Start(slots), s);
  }

  /** So `pb_decode` of any bytes, into any struct, yields a message that fits. */
  lemma DecodeStaysInBounds(fields: seq<Field>, dest: seq<Slot>, s: seq<byte>)
    requires WellFormed(fields) && InitsInBounds(fields) && |dest| == |fields|
    ensures Decode(fields, dest, s).Some? ==> AllInBounds(fields, Decode(fields, dest, s).value)
  {
    hide DecodeNoinit, Defaults, WellFormed, InitsInBounds, AllInBounds;
    DefaultsInBounds(fields, dest);
    DecodedInBounds(fields, Defaults(fields, dest), s);
  }
}
