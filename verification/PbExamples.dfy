/**
  * Known answers: records as the Protocol Buffers encoding guide and the tables of the speech client have them, and
  * what the decoder does with a few particular streams.
  */
module PbExamples {
  import opened Bytes
  import opened PbWire
  import opened PbTable
  import opened PbEncode
  import opened PbDecode
  import opened PbRoundTrip

  // ----- numbers

  lemma ShortVarints(v: nat)
    ensures v < 128 ==> EncVarint(v) == [v]
    ensures 128 <= v < 16384 ==> EncVarint(v) == [v % 128 + 128, v / 128]
  {
    if 128 <= v < 16384 {
      assert EncVarint(v / 128) == [v / 128];
    }
  }

  lemma ZigZagTable()
    ensures ZigZag(0) == 0 && ZigZag(-1) == 1 && ZigZag(1) == 2 && ZigZag(-2) == 3
    ensures ZigZag(0x7FFF_FFFF) == 0xFFFF_FFFE && ZigZag(-0x8000_0000) == 0xFFFF_FFFF
  {
  }

  // ----- records of every type

  function Number(tag: nat, l: LType, size: nat): Field { Field(tag, l, Required, Static, size, 0, [], Int(0)) }
  function Text(tag: nat, l: LType, size: nat): Field { Field(tag, l, Required, Static, size, 0, [], Raw([])) }

  /** The first byte of a record: tag and wire type 0 for varints, 1 for 64 bits, 2 for lengths, 5 for 32 bits. */
  lemma FirstBytes(tag: nat, f: Field)
    requires 1 <= tag <= 15
    ensures f.ltype in {Varint, UVarint, SVarint} ==> EncTag(tag, WireNumber(f.ltype)) == [8 * tag]
    ensures f.ltype == Fixed64 ==> EncTag(tag, WireNumber(f.ltype)) == [8 * tag + 1]
    ensures f.ltype in {BytesField, StringField, FixedBytes, Submessage} ==>
              EncTag(tag, WireNumber(f.ltype)) == [8 * tag + 2]
    ensures f.ltype == Fixed32 ==> EncTag(tag, WireNumber(f.ltype)) == [8 * tag + 5]
  {
  }

  /** The decoder takes the same numbers for the same types. */
  lemma WireTypes(n: nat)
    ensures WireTypeOf(n) == match n
                             case 0 => VarintWt
                             case 1 => Fixed64Wt
                             case 2 => StringWt
                             case 5 => Fixed32Wt
                             case _ => OtherWt
  {
  }

  lemma IntegerRecords(p: Pass)
    ensures EncTagged(p, Number(1, Varint, 4), Int(150)) == Some([0x08, 0x96, 0x01])
    ensures EncTagged(p, Number(1, Varint, 4), Int(7)) == Some([8, 7])
    ensures EncTagged(p, Number(1, UVarint, 4), Int(7)) == Some([8, 7])
    ensures EncTagged(p, Number(1, SVarint, 4), Int(-1)) == Some([8, 1])
    ensures EncTagged(p, Number(1, SVarint, 4), Int(1)) == Some([8, 2])
  {
    hide EncVarint;
    ShortVarints(8);
    ShortVarints(150);
    ShortVarints(7);
    ShortVarints(1);
    ShortVarints(2);
    ZigZagTable();
    assert [8] + [150, 1] == [8, 150, 1] && [8] + [7] == [8, 7] && [8] + [1] == [8, 1] && [8] + [2] == [8, 2];
    assert [150 % 128 + 128, 150 / 128] == [150, 1];
  }

  lemma FirstOctet(n: nat, width: nat)
    ensures EncFixed(n, width + 1) == [n % 256] + EncFixed(n / 256, width) && EncFixed(n, 0) == []
  {
  }

  /** Little-endian, four bytes. */
  lemma FourOctets(n: nat)
    ensures EncFixed(n, 4) == [n % 256, n / 256 % 256, n / 0x1_0000 % 256, n / 0x100_0000 % 256]
  {
    hide EncFixed;
    FirstOctet(n, 3);
    FirstOctet(n / 256, 2);
    FirstOctet(n / 256 / 256, 1);
    FirstOctet(n / 256 / 256 / 256, 0);
    assert n / 256 / 256 == n / 0x1_0000 && n / 0x1_0000 / 256 == n / 0x100_0000;
  }

  /** Eight bytes: the low half first. */
  lemma EightOctets(n: nat)
    ensures EncFixed(n, 8) == EncFixed(n, 4) + EncFixed(n / 0x1_0000_0000, 4)
  {
    hide EncFixed;
    var m := n / 256 / 256 / 256;
    FourOctets(n);
    FirstOctet(n, 7);
    FirstOctet(n / 256, 6);
    FirstOctet(n / 256 / 256, 5);
    FirstOctet(m, 4);
    assert n / 256 / 256 == n / 0x1_0000 && m == n / 0x100_0000 && m / 256 == n / 0x1_0000_0000;
  }

  /** `voice_power` of `SpeechOptions` set to 1.0, which is 0x3F800000 as a float. */
  lemma FloatRecord(p: Pass)
    ensures EncTagged(p, Number(9, Fixed32, 4), Int(0x3F80_0000)) == Some([77, 0, 0, 0x80, 0x3F])
    ensures EncTagged(p, Number(1, Fixed64, 8), Int(1)) == Some([9, 1, 0, 0, 0, 0, 0, 0, 0])
  {
    hide EncVarint, EncFixed;
    ShortVarints(77);
    ShortVarints(9);
    FourOctets(0x3F80_0000);
    EightOctets(1);
    FourOctets(1);
    FourOctets(0);
    assert [77] + [0, 0, 0x80, 0x3F] == [77, 0, 0, 0x80, 0x3F];
    assert [9] + ([1, 0, 0, 0] + [0, 0, 0, 0]) == [9, 1, 0, 0, 0, 0, 0, 0, 0];
  }

  /** Fields are written in the order of the table, one record after the other. */
  lemma TwoRecords(p: Pass)
    ensures Enc(p, [Number(1, UVarint, 4), Number(2, UVarint, 4)], [Req(Int(7)), Req(Int(1))]) == Some([8, 7, 16, 1])
  {
    hide EncTagged;
    var f, g := Number(1, UVarint, 4), Number(2, UVarint, 4);
    IntegerRecords(p);
    SecondRecord(p);
    assert [f, g][1..] == [g] && [g][1..] == [];
    assert [Req(Int(7)), Req(Int(1))][1..] == [Req(Int(1))] && [Req(Int(1))][1..] == [];
    assert EncSlot(p, f, Req(Int(7))) == Some([8, 7]) && EncSlot(p, g, Req(Int(1))) == Some([16, 1]);
    assert Enc(p, [], []) == Some([]);
    assert Enc(p, [g], [Req(Int(1))]) == Some([16, 1]) by { assert [16, 1] + [] == [16, 1]; }
    assert [8, 7] + [16, 1] == [8, 7, 16, 1];
  }

  lemma SecondRecord(p: Pass)
    ensures EncTagged(p, Number(2, UVarint, 4), Int(1)) == Some([16, 1])
  {
    hide EncVarint;
    ShortVarints(16);
    ShortVarints(1);
    assert [16] + [1] == [16, 1];
  }

  const TESTING: seq<byte> := [0x74, 0x65, 0x73, 0x74, 0x69, 0x6e, 0x67]

  lemma TextRecords(p: Pass)
    ensures EncTagged(p, Text(2, BytesField, 20), Raw(TESTING)) == Some([0x12, 7] + TESTING)
    ensures EncTagged(p, Text(2, StringField, 20), Raw(TESTING + [0])) == Some([0x12, 7] + TESTING)
    ensures EncTagged(p, Text(2, FixedBytes, 7), Raw(TESTING)) == Some([0x12, 7] + TESTING)
    ensures TextField(Text(2, StringField, 20), TESTING) == [0x12, 7] + TESTING
  {
    hide EncVarint, StrLen;
    ShortVarints(0x12);
    ShortVarints(7);
    UpToTerminator(TESTING);
    assert (TESTING + [0])[..7] == TESTING;
    assert EncString(TESTING) == [7] + TESTING;
    assert [0x12] + ([7] + TESTING) == [0x12, 7] + TESTING;
  }

  lemma {:induction false} UpToTerminator(b: seq<byte>)
    requires forall i | 0 <= i < |b| :: b[i] != 0
    ensures StrLen(b + [0]) == |b|
    decreases |b|
  {
    if b != [] {
      assert (b + [0])[0] == b[0] && (b + [0])[1..] == b[1..] + [0];
      UpToTerminator(b[1..]);
    }
  }

  /** A message in a message, and a packed array. */
  lemma NestedRecords(p: Pass)
    ensures var inner := Number(1, Varint, 4);
            var outer := Field(3, Submessage, Required, Static, 8, 0, [inner], Msg([]));
            EncTagged(p, outer, Msg([Req(Int(150))])) == Some([0x1a, 3, 0x08, 0x96, 0x01])
    ensures var f := Field(4, Varint, Repeated, Static, 4, 3, [], Int(0));
            EncArray(p, f, [Int(3), Int(270), Int(300)]) == Some([0x22, 5, 3, 0x8E, 0x02, 0xAC, 0x02])
  {
    hide EncVarint;
    ShortVarints(0x1a);
    ShortVarints(3);
    OneField(SizingOf(p));
    OneField(WritingOf(p));
    assert [0x1a] + ([3] + [0x08, 0x96, 0x01]) == [0x1a, 3, 0x08, 0x96, 0x01];
    ThreeNumbers();
    ShortVarints(0x22);
    ShortVarints(5);
    var packed: seq<byte> := [3, 0x8E, 0x02, 0xAC, 0x02];
    assert EncString(packed) == [5] + packed;
    assert [0x22] + ([5] + packed) == [0x22, 5, 3, 0x8E, 0x02, 0xAC, 0x02];
  }

  lemma OneField(p: Pass)
    ensures Enc(p, [Number(1, Varint, 4)], [Req(Int(150))]) == Some([0x08, 0x96, 0x01])
  {
    hide EncTagged;
    IntegerRecords(p);
    var f, slot := Number(1, Varint, 4), Req(Int(150));
    assert [f][1..] == [] && [slot][1..] == [] && Enc(p, [f][1..], [slot][1..]) == Some([]);
    assert EncSlot(p, f, slot) == Some([0x08, 0x96, 0x01]);
    assert [0x08, 0x96, 0x01] + [] == [0x08, 0x96, 0x01];
  }

  lemma ThreeNumbers()
    ensures var f := Field(4, Varint, Repeated, Static, 4, 3, [], Int(0));
            EncPacked(f, [Int(3), Int(270), Int(300)]) == Some([3, 0x8E, 0x02, 0xAC, 0x02])
  {
    hide EncVarint;
    var f := Field(4, Varint, Repeated, Static, 4, 3, [], Int(0));
    ShortVarints(3);
    ShortVarints(270);
    ShortVarints(300);
    var vs: seq<Value> := [Int(3), Int(270), Int(300)];
    assert vs[1..] == [Int(270), Int(300)] && vs[1..][1..] == [Int(300)] && vs[1..][1..][1..] == [];
    assert EncPacked(f, vs[1..][1..]) == Some([0xAC, 0x02]) by { assert [0xAC, 0x02] + [] == [0xAC, 0x02]; }
    assert EncPacked(f, vs[1..]) == Some([0x8E, 0x02, 0xAC, 0x02]) by {
      assert [0x8E, 0x02] + [0xAC, 0x02] == [0x8E, 0x02, 0xAC, 0x02];
    }
    assert [3] + [0x8E, 0x02, 0xAC, 0x02] == [3, 0x8E, 0x02, 0xAC, 0x02];
  }

  // ----- streams

  /** A number of a packed array may also come by itself; it is appended like the others. */
  lemma UnpackedIsAppended(f: Field, vs: seq<Value>, wt: WireType, v: Value, t: seq<byte>)
    requires f.atype == Static && Packable(f) && f.dataSize <= SIZE_MAX && |vs| < f.arraySize
    requires wt != StringWt && EncScalar(f, v).Some?
    ensures ReadField(f, wt, Rep(vs), EncScalar(f, v).value + t) == Got(Rep(vs + [v]), t)
  {
    hide ReadScalar, EncScalar;
    ScalarRoundTrip(f, v, t);
    var s := EncScalar(f, v).value + t;
    assert Sendable(f, v);
    assert ReadValue(f, Int(0), s) == Got(v, t);
    assert ReadStatic(f, wt, Rep(vs), s) == Got(Rep(vs + [v]), t);
  }

  /** An unknown float, of four bytes, is passed over, and the field behind it is read next. */
  lemma UnknownFloat(d: Dest)
    requires Fits([Number(1, Varint, 4)], d)
    ensures OneRecord([Number(1, Varint, 4)], d, [77, 0, 0, 0x80, 0x3F, 8, 7]) == Next(d, [8, 7])
  {
    var s: seq<byte> := [77, 0, 0, 0x80, 0x3F, 8, 7];
    assert s[1..] == [0, 0, 0x80, 0x3F, 8, 7] && s[1..][4..] == [8, 7];
    assert Lookup([Number(1, Varint, 4)], 9) == None;
  }

  /** A zero ends the message, whatever follows. */
  lemma ZeroEnds(fields: seq<Field>, d: Dest, rest: seq<byte>)
    requires Fits(fields, d)
    ensures Parse(fields, d, [0] + rest) == Some(d)
  {
    assert ([0] + rest)[0] == 0;
  }

  /** A table with two optional numbers, and one that has it as a submessage. */
  const PAIR: seq<Field> := [Field(1, Varint, Optional, Static, 4, 0, [], Int(0)),
                             Field(2, Varint, Optional, Static, 4, 0, [], Int(0))]
  const HOLDER := Field(1, Submessage, Required, Static, 8, 0, PAIR, Msg([]))
  const LIST := Field(1, Submessage, Repeated, Static, 8, 2, PAIR, Msg([]))
  const NEITHER: seq<Slot> := [Opt(false, Int(0)), Opt(false, Int(0))]

  lemma SmallNumber(i: nat, n: byte, a: Slot, b: Slot)
    requires i < 2 && n < 128 && a.Opt? && b.Opt?
    ensures DecodeNoinit(PAIR, [a, b], [8 * (i + 1), n])
         == Some(if i == 0 then [Opt(true, Int(n as int)), b] else [a, Opt(true, Int(n as int))])
  {
    hide ReadField;
    var s: seq<byte> := [8 * (i + 1), n];
    var d := Start([a, b]);
    assert s[1..] == [n] && [n][1..] == [];
    assert Lookup(PAIR, i + 1) == Some(i) by { assert PAIR[..1][0].tag == 1; }
    ReadsSmall(i, n, d.slots[i]);
    var d' := Dest(d.slots[i := Opt(true, Int(n as int))], d.seen[i := true]);
    assert OneRecord(PAIR, d, s) == Next(d', []);
    assert Parse(PAIR, d, s) == Parse(PAIR, d', []) == Some(d');
    assert d'.slots == if i == 0 then [Opt(true, Int(n as int)), b] else [a, Opt(true, Int(n as int))];
  }

  lemma ReadsSmall(i: nat, n: byte, slot: Slot)
    requires i < 2 && n < 128 && slot.Opt?
    ensures ReadField(PAIR[i], VarintWt, slot, [n]) == Got(Opt(true, Int(n as int)), [])
  {
    var f := PAIR[i];
    assert [n][1..] == [] && f.ltype == Varint && f.dataSize == 4 && f.atype == Static;
    assert ReadVarint([n]) == Got(n as nat, []);
    assert VarintValue(4, n as nat) == Some(n as int);
    assert ReadInt(f, [n]) == Got(Int(n as int), []);
    assert ReadValue(f, slot.v, [n]) == Got(Int(n as int), []);
  }

  /** A message that comes in two records is merged. */
  lemma MessagesMerge()
    ensures ReadValue(HOLDER, Msg(NEITHER), [2, 8, 5]) == Got(Msg([Opt(true, Int(5)), Opt(false, Int(0))]), [])
    ensures ReadValue(HOLDER, Msg([Opt(true, Int(5)), Opt(false, Int(0))]), [2, 16, 7])
         == Got(Msg([Opt(true, Int(5)), Opt(true, Int(7))]), [])
  {
    hide DecodeNoinit;
    SmallNumber(0, 5, Opt(false, Int(0)), Opt(false, Int(0)));
    SmallNumber(1, 7, Opt(true, Int(5)), Opt(false, Int(0)));
    ShortString(8, 5);
    ShortString(16, 7);
  }

  /** In an array each record is a message of its own. */
  lemma EntriesStartAfresh(cur: Value)
    ensures ReadValue(LIST, cur, [2, 8, 5]) == Got(Msg([Opt(true, Int(5)), Opt(false, Int(0))]), [])
    ensures ReadValue(LIST, cur, [2, 16, 7]) == Got(Msg([Opt(false, Int(0)), Opt(true, Int(7))]), [])
  {
    hide DecodeNoinit;
    assert Defaults(PAIR, Blank(PAIR)) == NEITHER;
    SmallNumber(0, 5, Opt(false, Int(0)), Opt(false, Int(0)));
    SmallNumber(1, 7, Opt(false, Int(0)), Opt(false, Int(0)));
    ShortString(8, 5);
    ShortString(16, 7);
  }

  lemma ShortString(a: byte, b: byte)
    ensures ReadString([2, a, b]) == Got([a, b], [])
  {
    var s: seq<byte> := [2, a, b];
    assert s[1..] == [a, b] && [a, b][..2] == [a, b] && [a, b][2..] == [];
  }
}
