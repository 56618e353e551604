/**
  * Sender and receiver with different versions of a table: what the receiver does not know is skipped by its wire type
  * alone, and what the sender does not have keeps its default.
  */
module PbVersions {
  import opened Bytes
  import opened PbWire
  import opened PbTable
  import opened PbEncode
  import opened PbDecode
  import opened PbRoundTrip

  // ----- what is written can be skipped without knowing the field

  /** A value is skipped to its last byte, and not further, by the wire type that is written in front of it. */
  lemma ValueIsSkipped(p: Pass, f: Field, v: Value, t: seq<byte>)
    requires EncValue(p, f, v).Some? && |EncValue(p, f, v).value| < TWO_32
    ensures Skip(WireTypeOf(WireNumber(f.ltype)), EncValue(p, f, v).value + t) == Got((), t)
  {
    hide EncVarint, SkipVarint, EncString, ReadString, EncFixed, ZigZag, Half, StrLen, Enc;
    var e := EncValue(p, f, v).value;
    HalfBounds(f.dataSize);
    match f.ltype
    case Varint => SkipEncVarint(U64(v.n), t);
    case UVarint => SkipEncVarint(v.n, t);
    case SVarint => SkipEncVarint(ZigZag(v.n), t);
    case Fixed32 => assert (e + t)[4..] == t;
    case Fixed64 => assert (e + t)[8..] == t;
    case BytesField => StringRoundTrip(v.b, t);
    case StringField => StringRoundTrip(v.b[..StrLen(v.b)], t);
    case FixedBytes => StringRoundTrip(v.b, t);
    case Submessage =>
      var q := if Counting(p) then SizingOf(p) else WritingOf(p);
      StringRoundTrip(Enc(q, f.sub, v.m).value, t);
  }

  /** A record whose tag the table does not have changes nothing and is passed over whole. */
  lemma RecordIsSkipped(fields: seq<Field>, d: Dest, tag: nat, wire: nat, body: seq<byte>, t: seq<byte>)
    requires Fits(fields, d) && !Has(fields, tag) && 0 < tag <= SIZE_MAX && wire < 8
    requires Skip(WireTypeOf(wire), body + t) == Got((), t)
    ensures Parse(fields, d, EncTag(tag, wire) + body + t) == Parse(fields, d, t)
  {
    hide Lookup, Skip, ReadField, ReadVarint32, EncVarint, Has;
    var s := EncTag(tag, wire) + body + t;
    assert s == EncVarint(8 * tag + wire) + (body + t);
    Varint32RoundTrip(8 * tag + wire, body + t);
    assert OneRecord(fields, d, s) == Next(d, t);
  }

  lemma TaggedIsSkipped(p: Pass, fields: seq<Field>, d: Dest, f: Field, v: Value, t: seq<byte>)
    requires Fits(fields, d) && !Has(fields, f.tag) && 0 < f.tag <= SIZE_MAX
    requires EncTagged(p, f, v).Some? && |EncTagged(p, f, v).value| < TWO_32
    ensures Parse(fields, d, EncTagged(p, f, v).value + t) == Parse(fields, d, t)
  {
    hide EncValue, EncTag, Skip, Parse, Has;
    ValueIsSkipped(p, f, v, t);
    RecordIsSkipped(fields, d, f.tag, WireNumber(f.ltype), EncValue(p, f, v).value, t);
  }

  lemma {:induction false} ItemsAreSkipped(p: Pass, fields: seq<Field>, d: Dest, f: Field, vs: seq<Value>, t: seq<byte>)
    requires Fits(fields, d) && !Has(fields, f.tag) && 0 < f.tag <= SIZE_MAX
    requires EncItems(p, f, vs).Some? && |EncItems(p, f, vs).value| < TWO_32
    ensures Parse(fields, d, EncItems(p, f, vs).value + t) == Parse(fields, d, t)
    decreases |vs|
  {
    hide EncTagged, Parse, Has;
    if vs == [] {
      assert [] + t == t;
    } else {
      var rest := EncItems(p, f, vs[1..]).value;
      assert EncItems(p, f, vs).value + t == EncTagged(p, f, vs[0]).value + (rest + t);
      TaggedIsSkipped(p, fields, d, f, vs[0], rest + t);
      ItemsAreSkipped(p, fields, d, f, vs[1..], t);
    }
  }

  lemma StringIsSkipped(fields: seq<Field>, d: Dest, tag: nat, content: seq<byte>, t: seq<byte>)
    requires Fits(fields, d) && !Has(fields, tag) && 0 < tag <= SIZE_MAX && |content| < TWO_32
    ensures Parse(fields, d, EncTag(tag, 2) + EncString(content) + t) == Parse(fields, d, t)
  {
    hide EncTag, EncString, ReadString, Parse, Has;
    StringRoundTrip(content, t);
    RecordIsSkipped(fields, d, tag, 2, EncString(content), t);
  }

  lemma ArrayIsSkipped(p: Pass, fields: seq<Field>, d: Dest, f: Field, vs: seq<Value>, t: seq<byte>)
    requires Fits(fields, d) && !Has(fields, f.tag) && 0 < f.tag <= SIZE_MAX
    requires EncArray(p, f, vs).Some? && |EncArray(p, f, vs).value| < TWO_32
    ensures Parse(fields, d, EncArray(p, f, vs).value + t) == Parse(fields, d, t)
  {
    hide EncTag, EncString, EncItems, EncPacked, Parse, Has;
    if vs == [] {
      assert [] + t == t;
    } else if Packable(f) {
      StringIsSkipped(fields, d, f.tag, EncPacked(f, vs).value, t);
    } else {
      ItemsAreSkipped(p, fields, d, f, vs, t);
    }
  }

  /** Whatever is written for a field, a table without its tag passes over. */
  lemma SlotIsSkipped(p: Pass, text: Texts, fields: seq<Field>, d: Dest, f: Field, slot: Slot, t: seq<byte>)
    requires Fits(fields, d) && !Has(fields, f.tag) && 0 < f.tag <= SIZE_MAX && ClientSlot(p.script, text, f, slot)
    requires EncSlot(p, f, slot).Some? && |EncSlot(p, f, slot).value| < TWO_32
    ensures Parse(fields, d, EncSlot(p, f, slot).value + t) == Parse(fields, d, t)
  {
    hide EncTagged, EncArray, EncTag, EncString, Parse, Has, ClientValue, ClientValues;
    assert [] + t == t;
    match slot
    case Req(v) => TaggedIsSkipped(p, fields, d, f, v, t);
    case Opt(has, v) =>
      if has {
        TaggedIsSkipped(p, fields, d, f, v, t);
      }
    case Rep(vs) => ArrayIsSkipped(p, fields, d, f, vs, t);
    case Call(fn) =>
      if fn.Encoder? {
        StringIsSkipped(fields, d, f.tag, text(fn.id), t);
      }
  }

  // ----- two versions of a table

  /** Fields with the same tag are the same field. */
  ghost predicate Compatible(theirs: seq<Field>, mine: seq<Field>) {
    forall i, j | 0 <= i < |theirs| && 0 <= j < |mine| && theirs[i].tag == mine[j].tag :: theirs[i] == mine[j]
  }

  /** The sender's field, from `i` on, that arrives in the receiver's field `j`. */
  function Source(theirs: seq<Field>, mine: seq<Field>, i: nat, j: nat): (r: Option<nat>)
    requires j < |mine|
    ensures r.Some? ==> i <= r.value < |theirs| && theirs[r.value].tag == mine[j].tag
  {
    var k := Lookup(theirs, mine[j].tag);
    if k.Some? && k.value >= i then k else None
  }

  lemma SourceStep(theirs: seq<Field>, mine: seq<Field>, i: nat, j: nat)
    requires WellFormed(theirs) && i < |theirs| && j < |mine|
    ensures Source(theirs, mine, i, j)
         == if theirs[i].tag == mine[j].tag then Some(i) else Source(theirs, mine, i + 1, j)
  {
    hide WellFormed, Lookup;
    LookupIsUnique(theirs, i);
  }

  /** What the receiver ends up with in field `j`. */
  function Arrived(text: Texts, theirs: seq<Field>, mine: seq<Field>, dest: Slot, before: Slot, slots: seq<Slot>,
                   i: nat, j: nat): Slot
    requires |slots| == |theirs| && j < |mine|
  {
    var k := Source(theirs, mine, i, j);
    if k.Some? then NormSlot(text, mine[j], dest, slots[k.value]) else before
  }

  predicate Comes(theirs: seq<Field>, mine: seq<Field>, slots: seq<Slot>, i: nat, j: nat)
    requires |slots| == |theirs| && j < |mine|
  {
    var k := Source(theirs, mine, i, j);
    k.Some? && Present(slots[k.value])
  }

  /** The strings of the fields that both sides have, from `i` on, are terminated. */
  predicate SharedAreSendable(theirs: seq<Field>, mine: seq<Field>, slots: seq<Slot>, i: nat)
    requires |slots| == |theirs|
  {
    forall k | i <= k < |theirs| :: Has(mine, theirs[k].tag) ==> SendableSlot(theirs[k], slots[k])
  }

  predicate Result(text: Texts, theirs: seq<Field>, mine: seq<Field>, dest: seq<Slot>, slots: seq<Slot>, i: nat,
                   d: Dest, r: Option<Dest>)
    requires |slots| == |theirs| && |dest| == |mine| && Fits(mine, d)
  {
    && r.Some? && Fits(mine, r.value)
    && (forall j | 0 <= j < |mine| ::
          r.value.slots[j] == Arrived(text, theirs, mine, dest[j], d.slots[j], slots, i, j))
    && (forall j | 0 <= j < |mine| :: r.value.seen[j] == (d.seen[j] || Comes(theirs, mine, slots, i, j)))
  }

  /** Nothing has come yet of what is still to come. */
  predicate Untouched(theirs: seq<Field>, mine: seq<Field>, dest: seq<Slot>, i: nat, d: Dest)
    requires |dest| == |mine| && Fits(mine, d)
  {
    forall j | 0 <= j < |mine| :: Source(theirs, mine, i, j).Some? ==> d.slots[j] == InitSlot(mine[j], dest[j])
  }

  lemma FieldsOfVersion(p: Pass, text: Texts, theirs: seq<Field>, mine: seq<Field>, dest: seq<Slot>, slots: seq<Slot>,
                        i: nat, d: Dest)
    requires WellFormed(theirs) && WellFormed(mine) && Compatible(theirs, mine) && Fits(mine, d)
    requires i <= |theirs| == |slots| && |dest| == |mine| && Untouched(theirs, mine, dest, i, d)
    requires Receiver(mine, dest) && Client(p.script, text, theirs, slots)
    requires Enc(p, theirs[i..], slots[i..]).Some? && |Enc(p, theirs[i..], slots[i..]).value| < TWO_32
    ensures var r := Parse(mine, d, Enc(p, theirs[i..], slots[i..]).value);
            if SharedAreSendable(theirs, mine, slots, i) then Result(text, theirs, mine, dest, slots, i, d, r)
            else r == None
    decreases |theirs| - i
  {
    hide WellFormed, EncSlot, NormSlot, SendableSlot, OneRecord, InitSlot, ReceiverSlot, ClientSlot, Present, Lookup,
         Source, Has;
    if i == |theirs| {
      NothingComes(theirs, mine);
    } else {
      EncPrefix(p, theirs, slots, i);
      FieldIsWellFormed(theirs, i);
      var f, rest := theirs[i], Enc(p, theirs[i + 1..], slots[i + 1..]).value;
      assert SharedAreSendable(theirs, mine, slots, i) <==>
             (Has(mine, f.tag) ==> SendableSlot(f, slots[i])) && SharedAreSendable(theirs, mine, slots, i + 1);
      forall j | 0 <= j < |mine|
        ensures Source(theirs, mine, i, j) == if f.tag == mine[j].tag then Some(i) else Source(theirs, mine, i + 1, j)
      {
        SourceStep(theirs, mine, i, j);
      }
      if Lookup(mine, f.tag).Some? {
        SharedField(p, text, theirs, mine, dest, slots, i, d);
      } else {
        NotAmong(mine, f.tag);
        assert forall j | 0 <= j < |mine| :: Source(theirs, mine, i, j) == Source(theirs, mine, i + 1, j);
        SlotIsSkipped(p, text, mine, d, f, slots[i], rest);
        FieldsOfVersion(p, text, theirs, mine, dest, slots, i + 1, d);
      }
    }
  }

  lemma SharedField(p: Pass, text: Texts, theirs: seq<Field>, mine: seq<Field>, dest: seq<Slot>, slots: seq<Slot>,
                    i: nat, d: Dest)
    requires WellFormed(theirs) && WellFormed(mine) && Compatible(theirs, mine) && Fits(mine, d)
    requires i < |theirs| == |slots| && |dest| == |mine| && Untouched(theirs, mine, dest, i, d)
    requires Receiver(mine, dest) && Client(p.script, text, theirs, slots) && Lookup(mine, theirs[i].tag).Some?
    requires Enc(p, theirs[i..], slots[i..]).Some? && |Enc(p, theirs[i..], slots[i..]).value| < TWO_32
    ensures var r := Parse(mine, d, Enc(p, theirs[i..], slots[i..]).value);
            if SharedAreSendable(theirs, mine, slots, i) then Result(text, theirs, mine, dest, slots, i, d, r)
            else r == None
    decreases |theirs| - i, 0
  {
    hide WellFormed, EncSlot, NormSlot, SendableSlot, OneRecord, InitSlot, ReceiverSlot, ClientSlot, Present, Lookup,
         Source, Has;
    EncPrefix(p, theirs, slots, i);
    var f, rest := theirs[i], Enc(p, theirs[i + 1..], slots[i + 1..]).value;
    var m := Lookup(mine, f.tag).value;
    forall j | 0 <= j < |mine|
      ensures Source(theirs, mine, i, j) == if j == m then Some(i) else Source(theirs, mine, i + 1, j)
      ensures j == m ==> Source(theirs, mine, i + 1, j) == None
    {
      SourceStep(theirs, mine, i, j);
      OnlyOnce(theirs, mine, i, j, m);
    }
    NotAmong(mine, f.tag);
    SlotRoundTrip(p, text, mine, m, d, dest[m], slots[i], rest);
    assert SharedAreSendable(theirs, mine, slots, i) <==>
           SendableSlot(f, slots[i]) && SharedAreSendable(theirs, mine, slots, i + 1);
    if SendableSlot(f, slots[i]) {
      var d' := Dest(d.slots[m := NormSlot(text, f, dest[m], slots[i])], d.seen[m := d.seen[m] || Present(slots[i])]);
      FieldsOfVersion(p, text, theirs, mine, dest, slots, i + 1, d');
    }
  }

  lemma NothingComes(theirs: seq<Field>, mine: seq<Field>)
    ensures forall j | 0 <= j < |mine| :: Source(theirs, mine, |theirs|, j) == None
  {
    hide Lookup;
  }

  lemma NotAmong(mine: seq<Field>, tag: nat)
    ensures Lookup(mine, tag).Some? <==> Has(mine, tag)
    ensures !Has(mine, tag) ==> forall j | 0 <= j < |mine| :: mine[j].tag != tag
  {
  }

  lemma OnlyOnce(theirs: seq<Field>, mine: seq<Field>, i: nat, j: nat, m: nat)
    requires WellFormed(theirs) && WellFormed(mine) && i < |theirs| && j < |mine| && m < |mine|
    requires mine[m].tag == theirs[i].tag
    ensures theirs[i].tag == mine[j].tag <==> j == m
    ensures Source(theirs, mine, i + 1, m) == None
  {
    hide Lookup;
    LookupIsUnique(theirs, i);
  }

  /** The message the receiver ends up with: shared fields as sent, the others at their defaults. */
  function OfVersion(text: Texts, theirs: seq<Field>, mine: seq<Field>, dest: seq<Slot>, slots: seq<Slot>)
      : (r: seq<Slot>)
    requires |slots| == |theirs| && |dest| == |mine|
    ensures |r| == |mine|
  {
    seq(|mine|, j requires 0 <= j < |mine| =>
          Arrived(text, theirs, mine, dest[j], InitSlot(mine[j], dest[j]), slots, 0, j))
  }

  /**
    * For any two compatible tables: what is encoded with one is decoded with the other if and only if the strings of
    * the shared fields are terminated and every required field that the receiver keeps track of was sent. Each shared
    * field then holds what was sent, and every other field its default.
    */
  lemma OtherVersion(p: Pass, text: Texts, theirs: seq<Field>, mine: seq<Field>, dest: seq<Slot>, slots: seq<Slot>)
    requires WellFormed(theirs) && WellFormed(mine) && Compatible(theirs, mine)
    requires |theirs| == |slots| && |dest| == |mine|
    requires Receiver(mine, dest) && Client(p.script, text, theirs, slots)
    requires Enc(p, theirs, slots).Some? && |Enc(p, theirs, slots).value| < TWO_32
    ensures Decode(mine, dest, Enc(p, theirs, slots).value) ==
            if SharedAreSendable(theirs, mine, slots, 0)
               && (forall j | 0 <= j < |mine| :: Tracked(mine, j) ==> Comes(theirs, mine, slots, 0, j))
            then Some(OfVersion(text, theirs, mine, dest, slots)) else None
  {
    hide WellFormed, Parse, Arrived, Comes, SendableSlot, InitSlot, Tracked, Receiver, Client, Has;
    assert theirs[0..] == theirs && slots[0..] == slots;
    var d := Start(Defaults(mine, dest));
    FieldsOfVersion(p, text, theirs, mine, dest, slots, 0, d);
    if SharedAreSendable(theirs, mine, slots, 0) {
      var r := Parse(mine, d, Enc(p, theirs, slots).value);
      assert r.value.slots == OfVersion(text, theirs, mine, dest, slots);
    }
  }
}
