/**
  * What a message means does not depend on how the records of different fields are interleaved, nor on records
  * with unknown tags.
  */
module PbRecords {
  import opened Bytes
  import opened PbWire
  import opened PbTable
  import opened PbEncode
  import opened PbDecode

  // ----- reading does not look beyond what it consumes

  lemma SuffixOfSum(s: seq<byte>, t: seq<byte>, n: nat)
    requires n <= |s|
    ensures (s + t)[..n] == s[..n] && (s + t)[n..] == s[n..] + t
  {
  }

  lemma IntIsLocal(f: Field, s: seq<byte>, t: seq<byte>)
    requires f.ltype in {Varint, UVarint, SVarint} && ReadInt(f, s).Got?
    ensures ReadInt(f, s + t) == Got(ReadInt(f, s).value, ReadInt(f, s).rest + t)
  {
    hide VarintValue, UVarintValue, SVarintValue;
    ReadVarintFits(s);
    VarintIsLocal(s, 0, t);
  }

  lemma BlobIsLocal(f: Field, s: seq<byte>, t: seq<byte>)
    requires f.ltype in {BytesField, StringField, FixedBytes} && ReadBlob(f, s).Got?
    ensures ReadBlob(f, s + t) == Got(ReadBlob(f, s).value, ReadBlob(f, s).rest + t)
  {
    hide ReadLength, StrLen;
    StringIsLocal(s, t);
    var n, rest := ReadLength(s).value, ReadLength(s).rest;
    if n <= |rest| {
      SuffixOfSum(rest, t, n);
    }
  }

  lemma ScalarIsLocal(f: Field, s: seq<byte>, t: seq<byte>)
    requires ReadScalar(f, s).Got?
    ensures ReadScalar(f, s + t) == Got(ReadScalar(f, s).value, ReadScalar(f, s).rest + t)
  {
    hide ReadInt, ReadBlob;
    match f.ltype
    case Varint => IntIsLocal(f, s, t);
    case UVarint => IntIsLocal(f, s, t);
    case SVarint => IntIsLocal(f, s, t);
    case Fixed32 => SuffixOfSum(s, t, 4);
    case Fixed64 => SuffixOfSum(s, t, 8);
    case _ => BlobIsLocal(f, s, t);
  }

  lemma ValueIsLocal(f: Field, cur: Value, s: seq<byte>, t: seq<byte>)
    requires ReadValue(f, cur, s).Got?
    ensures ReadValue(f, cur, s + t) == Got(ReadValue(f, cur, s).value, ReadValue(f, cur, s).rest + t)
  {
    hide ReadScalar, ReadString, DecodeNoinit;
    if f.ltype != Submessage {
      ScalarIsLocal(f, s, t);
    } else {
      StringIsLocal(s, t);
    }
  }

  lemma StaticIsLocal(f: Field, wt: WireType, slot: Slot, s: seq<byte>, t: seq<byte>)
    requires ReadStatic(f, wt, slot, s).Got?
    ensures ReadStatic(f, wt, slot, s + t) == Got(ReadStatic(f, wt, slot, s).value, ReadStatic(f, wt, slot, s).rest + t)
  {
    hide ReadValue, ReadString, ReadPacked;
    match slot
    case Req(v) => ValueIsLocal(f, v, s, t);
    case Opt(_, v) => ValueIsLocal(f, v, s, t);
    case Rep(vs) =>
      if wt == StringWt && Packable(f) {
        StringIsLocal(s, t);
      } else {
        ValueIsLocal(f, Int(0), s, t);
      }
    case Call(_) =>
  }

  lemma CallbackIsLocal(wt: WireType, fn: Callback, s: seq<byte>, t: seq<byte>)
    requires ReadCallback(wt, fn, s).Got?
    ensures ReadCallback(wt, fn, s + t) == Got(ReadCallback(wt, fn, s).value, ReadCallback(wt, fn, s).rest + t)
  {
    hide Skip, ReadString, ReadRaw;
    match fn
    case Encoder(_) =>
    case Unset => SkipIsLocal(wt, s, t);
    case Decoder(_) =>
      if wt == StringWt {
        StringIsLocal(s, t);
      } else {
        RawIsLocal(wt, s, t);
      }
  }

  lemma FieldIsLocal(f: Field, wt: WireType, slot: Slot, s: seq<byte>, t: seq<byte>)
    requires ReadField(f, wt, slot, s).Got?
    ensures ReadField(f, wt, slot, s + t) == Got(ReadField(f, wt, slot, s).value, ReadField(f, wt, slot, s).rest + t)
  {
    hide ReadStatic, ReadCallback;
    if f.atype == ByCallback {
      CallbackIsLocal(wt, slot.fn, s, t);
    } else {
      StaticIsLocal(f, wt, slot, s, t);
    }
  }

  lemma RecordIsLocal(fields: seq<Field>, d: Dest, s: seq<byte>, t: seq<byte>)
    requires Fits(fields, d) && s != [] && OneRecord(fields, d, s).Next?
    ensures OneRecord(fields, d, s + t) == Next(OneRecord(fields, d, s).d, OneRecord(fields, d, s).rest + t)
  {
    hide ReadVarint32, ReadField, Skip, Lookup;
    Varint32IsLocal(s, t);
    var temp, rest := ReadVarint32(s).value, ReadVarint32(s).rest;
    var wt := WireTypeOf(temp % 8);
    match Lookup(fields, temp / 8)
    case None => SkipIsLocal(wt, rest, t);
    case Some(i) => FieldIsLocal(fields[i], wt, d.slots[i], rest, t);
  }

  // ----- records

  /** The bytes `r` are one whole record. */
  function StepOn(fields: seq<Field>, d: Dest, r: seq<byte>): (d': Option<Dest>)
    requires Fits(fields, d)
    ensures d'.Some? ==> Fits(fields, d'.value)
  {
    if r == [] then None
    else
      match OneRecord(fields, d, r)
      case Next(d', rest) => if rest == [] then Some(d') else None
      case _ => None
  }

  function Apply(fields: seq<Field>, d: Dest, records: seq<seq<byte>>): (d': Option<Dest>)
    requires Fits(fields, d)
    ensures d'.Some? ==> Fits(fields, d'.value)
    decreases |records|
  {
    if records == [] then Some(d)
    else
      match StepOn(fields, d, records[0])
      case None => None
      case Some(d') => Apply(fields, d', records[1..])
  }

  lemma {:induction false} ParseRecords(fields: seq<Field>, d: Dest, records: seq<seq<byte>>, t: seq<byte>)
    requires Fits(fields, d) && Apply(fields, d, records).Some?
    ensures Parse(fields, d, Flatten(records) + t) == Parse(fields, Apply(fields, d, records).value, t)
    decreases |records|
  {
    hide OneRecord;
    if records == [] {
      assert Flatten(records) + t == t;
    } else {
      var r, rest := records[0], Flatten(records[1..]) + t;
      assert Flatten(records) + t == r + rest;
      RecordIsLocal(fields, d, r, rest);
      assert [] + rest == rest;
      ParseRecords(fields, StepOn(fields, d, r).value, records[1..], t);
    }
  }

  /** The field a record is for, if the table has it. */
  function FieldOf(fields: seq<Field>, r: seq<byte>): (i: Option<nat>)
    ensures i.Some? ==> i.value < |fields|
  {
    match ReadVarint32(r)
    case Value32(temp, _) => if temp == 0 then None else Lookup(fields, temp / 8)
    case _ => None
  }

  /** A whole record whose tag the table does not have. */
  predicate Skippable(fields: seq<Field>, r: seq<byte>) {
    match ReadVarint32(r)
    case Value32(temp, rest) =>
      temp >= 8 && !Has(fields, temp / 8) && Skip(WireTypeOf(temp % 8), rest) == Got((), [])
    case _ => false
  }

  /** What a record for field `i` makes of that field. */
  function SlotAfter(fields: seq<Field>, i: nat, slot: Slot, r: seq<byte>): Option<Slot>
    requires i < |fields|
  {
    match ReadVarint32(r)
    case Value32(temp, rest) =>
      (match ReadField(fields[i], WireTypeOf(temp % 8), slot, rest)
       case Got(slot', rest') => if rest' == [] then Some(slot') else None
       case Bad => None)
    case _ => None
  }

  /** A record for a field changes that field only, and depends on that field only; an unknown one changes nothing. */
  lemma StepOnSlot(fields: seq<Field>, d: Dest, r: seq<byte>)
    requires Fits(fields, d)
    ensures FieldOf(fields, r).None? && StepOn(fields, d, r).Some? ==> StepOn(fields, d, r) == Some(d)
    ensures Skippable(fields, r) ==> StepOn(fields, d, r) == Some(d)
    ensures FieldOf(fields, r).Some? ==>
              var i := FieldOf(fields, r).value;
              StepOn(fields, d, r) ==
              match SlotAfter(fields, i, d.slots[i], r)
              case Some(slot) => Some(Dest(d.slots[i := slot], d.seen[i := true]))
              case None => None
  {
    hide ReadVarint32, ReadField, Skip, Lookup;
    ReadVarint32OfEmpty(r);
  }

  lemma ReadVarint32OfEmpty(r: seq<byte>)
    ensures r == [] ==> ReadVarint32(r) == Eof
    ensures r != [] ==> ReadVarint32(r) != Eof
  {
  }

  /** The records for field `i`, in their order. */
  function Own(fields: seq<Field>, i: nat, records: seq<seq<byte>>): seq<seq<byte>> {
    if records == [] then []
    else (if FieldOf(fields, records[0]) == Some(i) then [records[0]] else []) + Own(fields, i, records[1..])
  }

  function SlotAfterAll(fields: seq<Field>, i: nat, slot: Slot, records: seq<seq<byte>>): Option<Slot>
    requires i < |fields|
    decreases |records|
  {
    if records == [] then Some(slot)
    else
      match SlotAfter(fields, i, slot, records[0])
      case Some(slot') => SlotAfterAll(fields, i, slot', records[1..])
      case None => None
  }

  /** Every record is whole: it is for a field of the table, or can be skipped. */
  predicate Whole(fields: seq<Field>, records: seq<seq<byte>>) {
    forall k | 0 <= k < |records| :: FieldOf(fields, records[k]).None? ==> Skippable(fields, records[k])
  }

  lemma WholeTail(fields: seq<Field>, records: seq<seq<byte>>)
    requires Whole(fields, records) && records != []
    ensures Whole(fields, records[1..])
    ensures FieldOf(fields, records[0]).None? ==> Skippable(fields, records[0])
  {
  }

  lemma OwnFirst(fields: seq<Field>, i: nat, slot: Slot, records: seq<seq<byte>>)
    requires i < |fields| && records != []
    ensures SlotAfterAll(fields, i, slot, Own(fields, i, records)) ==
            if FieldOf(fields, records[0]) != Some(i) then SlotAfterAll(fields, i, slot, Own(fields, i, records[1..]))
            else match SlotAfter(fields, i, slot, records[0])
                 case Some(slot') => SlotAfterAll(fields, i, slot', Own(fields, i, records[1..]))
                 case None => None
  {
    hide SlotAfter, FieldOf;
    var rest := Own(fields, i, records[1..]);
    assert ([records[0]] + rest)[1..] == rest;
    assert [] + rest == rest;
  }

  /** Each field's final contents are a function of its own records alone. */
  lemma {:induction false} FieldsAreIndependent(fields: seq<Field>, d: Dest, records: seq<seq<byte>>, i: nat)
    requires Fits(fields, d) && i < |fields| && Apply(fields, d, records).Some?
    ensures var d' := Apply(fields, d, records).value;
            && SlotAfterAll(fields, i, d.slots[i], Own(fields, i, records)) == Some(d'.slots[i])
            && d'.seen[i] == (d.seen[i] || Own(fields, i, records) != [])
    decreases |records|
  {
    hide StepOn, SlotAfter, FieldOf, Skippable;
    if records != [] {
      StepOnSlot(fields, d, records[0]);
      OwnFirst(fields, i, d.slots[i], records);
      FieldsAreIndependent(fields, StepOn(fields, d, records[0]).value, records[1..], i);
    }
  }

  /** Whole records are accepted exactly when every field accepts its own. */
  lemma {:induction false} AcceptedFieldByField(fields: seq<Field>, d: Dest, records: seq<seq<byte>>)
    requires Fits(fields, d) && Whole(fields, records)
    ensures Apply(fields, d, records).Some? <==>
            forall i | 0 <= i < |fields| :: SlotAfterAll(fields, i, d.slots[i], Own(fields, i, records)).Some?
    decreases |records|
  {
    hide StepOn, SlotAfter, FieldOf, Skippable;
    if records != [] {
      var r := records[0];
      WholeTail(fields, records);
      StepOnSlot(fields, d, r);
      forall i | 0 <= i < |fields| {
        OwnFirst(fields, i, d.slots[i], records);
      }
      if StepOn(fields, d, r).Some? {
        AcceptedFieldByField(fields, StepOn(fields, d, r).value, records[1..]);
      } else {
        assert FieldOf(fields, r).Some?;
      }
    }
  }

  /**
    * Two streams of whole records that hold the same records for each field, in the same order, are the same message:
    * the records of different fields may be interleaved in any way, and unknown ones inserted anywhere.
    */
  lemma InterleavingIsIrrelevant(fields: seq<Field>, d: Dest, records: seq<seq<byte>>, others: seq<seq<byte>>,
                                 t: seq<byte>)
    requires Fits(fields, d) && Apply(fields, d, records).Some? && Whole(fields, others)
    requires forall i | 0 <= i < |fields| :: Own(fields, i, records) == Own(fields, i, others)
    ensures Parse(fields, d, Flatten(records) + t) == Parse(fields, d, Flatten(others) + t)
  {
    hide SlotAfterAll, Own, Whole, Apply, Flatten;
    forall i | 0 <= i < |fields| {
      FieldsAreIndependent(fields, d, records, i);
    }
    AcceptedFieldByField(fields, d, others);
    var d1, d2 := Apply(fields, d, records).value, Apply(fields, d, others).value;
    forall i | 0 <= i < |fields| ensures d1.slots[i] == d2.slots[i] && d1.seen[i] == d2.seen[i] {
      FieldsAreIndependent(fields, d, others, i);
    }
    assert d1.slots == d2.slots && d1.seen == d2.seen;
    ParseRecords(fields, d, records, t);
    ParseRecords(fields, d, others, t);
  }

  /** On whole records, decoding succeeds if and only if every tracked required field has one. */
  lemma RequiredFields(fields: seq<Field>, slots: seq<Slot>, records: seq<seq<byte>>)
    requires |slots| == |fields| && Apply(fields, Start(slots), records).Some?
    ensures DecodeNoinit(fields, slots, Flatten(records)).Some? <==>
            forall i | 0 <= i < |fields| :: Tracked(fields, i) ==> Own(fields, i, records) != []
  {
    hide Own, Apply, Flatten, Tracked, Parse;
    ParseRecords(fields, Start(slots), records, []);
    assert Flatten(records) + [] == Flatten(records);
    var d := Apply(fields, Start(slots), records).value;
    assert Parse(fields, d, []) == Some(d) by { ParseNothing(fields, d); }
    forall i | 0 <= i < |fields| ensures d.seen[i] == (Own(fields, i, records) != []) {
      FieldsAreIndependent(fields, Start(slots), records, i);
    }
  }

  lemma ParseNothing(fields: seq<Field>, d: Dest)
    requires Fits(fields, d)
    ensures Parse(fields, d, []) == Some(d)
  {
  }

  // ----- two special cases

  lemma {:induction false} OwnOfConcat(fields: seq<Field>, i: nat, a: seq<seq<byte>>, b: seq<seq<byte>>)
    ensures Own(fields, i, a + b) == Own(fields, i, a) + Own(fields, i, b)
    decreases |a|
  {
    hide FieldOf;
    if a == [] {
      assert a + b == b;
    } else {
      assert (a + b)[1..] == a[1..] + b;
      OwnOfConcat(fields, i, a[1..], b);
    }
  }

  lemma FlattenInserted(a: seq<seq<byte>>, r: seq<byte>, b: seq<seq<byte>>, t: seq<byte>)
    ensures Flatten(a + ([r] + b)) + t == Flatten(a) + r + Flatten(b) + t
    ensures Flatten(a + b) + t == Flatten(a) + Flatten(b) + t
  {
    FlattenOfConcat(a, b);
    FlattenOfConcat(a, [r] + b);
    assert ([r] + b)[1..] == b;
    assert Flatten(a) + (r + Flatten(b)) + t == Flatten(a) + r + Flatten(b) + t;
  }

  /** A record with an unknown tag at a record boundary changes nothing. */
  lemma UnknownIsIgnored(fields: seq<Field>, slots: seq<Slot>, a: seq<seq<byte>>, r: seq<byte>, b: seq<seq<byte>>,
                         t: seq<byte>)
    requires |slots| == |fields| && Skippable(fields, r) && Apply(fields, Start(slots), a + b).Some?
    ensures DecodeNoinit(fields, slots, Flatten(a) + r + Flatten(b) + t)
            == DecodeNoinit(fields, slots, Flatten(a) + Flatten(b) + t)
  {
    hide Skippable, Parse, Complete, Apply, Flatten;
    var d := Start(slots);
    ApplyInserted(fields, d, a, r, b);
    ParseRecords(fields, d, a + b, t);
    ParseRecords(fields, d, a + ([r] + b), t);
    FlattenInserted(a, r, b, t);
  }

  lemma {:induction false} ApplyInserted(fields: seq<Field>, d: Dest, a: seq<seq<byte>>, r: seq<byte>,
                                         b: seq<seq<byte>>)
    requires Fits(fields, d) && Skippable(fields, r)
    ensures Apply(fields, d, a + ([r] + b)) == Apply(fields, d, a + b)
    decreases |a|
  {
    hide Skippable, StepOn;
    if a == [] {
      assert a + ([r] + b) == [r] + b && a + b == b && ([r] + b)[1..] == b;
      StepOnSlot(fields, d, r);
    } else {
      assert (a + ([r] + b))[1..] == a[1..] + ([r] + b) && (a + b)[1..] == a[1..] + b;
      if StepOn(fields, d, a[0]).Some? {
        ApplyInserted(fields, StepOn(fields, d, a[0]).value, a[1..], r, b);
      }
    }
  }

  /** Every record is for a field of the table, and no two are for the same. */
  predicate OnePerField(fields: seq<Field>, records: seq<seq<byte>>) {
    && (forall k | 0 <= k < |records| :: FieldOf(fields, records[k]).Some?)
    && (forall j, k | 0 <= j < k < |records| :: FieldOf(fields, records[j]) != FieldOf(fields, records[k]))
  }

  lemma {:induction false} OwnIsNone(fields: seq<Field>, i: nat, records: seq<seq<byte>>)
    requires forall k | 0 <= k < |records| :: FieldOf(fields, records[k]) != Some(i)
    ensures Own(fields, i, records) == []
    decreases |records|
  {
    hide FieldOf;
    if records != [] {
      OwnIsNone(fields, i, records[1..]);
    }
  }

  lemma OwnIsTheOne(fields: seq<Field>, i: nat, records: seq<seq<byte>>, k: nat)
    requires OnePerField(fields, records) && k < |records| && FieldOf(fields, records[k]) == Some(i)
    ensures Own(fields, i, records) == [records[k]]
  {
    hide FieldOf;
    var a, b := records[..k], records[k + 1..];
    assert records == a + ([records[k]] + b);
    OwnOfConcat(fields, i, a, [records[k]] + b);
    OwnIsNone(fields, i, a);
    OwnIsNone(fields, i, b);
    assert ([records[k]] + b)[1..] == b;
  }

  /** Records of pairwise distinct fields may come in any order. */
  lemma AnyOrder(fields: seq<Field>, d: Dest, records: seq<seq<byte>>, others: seq<seq<byte>>, t: seq<byte>)
    requires Fits(fields, d) && Apply(fields, d, records).Some?
    requires OnePerField(fields, records) && OnePerField(fields, others) && multiset(records) == multiset(others)
    ensures Parse(fields, d, Flatten(records) + t) == Parse(fields, d, Flatten(others) + t)
  {
    hide FieldOf, Own, Apply, Flatten, Parse, Skippable;
    assert forall r :: r in multiset(records) <==> r in records;
    assert forall r :: r in multiset(others) <==> r in others;
    forall i | 0 <= i < |fields| ensures Own(fields, i, records) == Own(fields, i, others) {
      if k :| 0 <= k < |records| && FieldOf(fields, records[k]) == Some(i) {
        assert records[k] in others;
        var k' :| 0 <= k' < |others| && others[k'] == records[k];
        OwnIsTheOne(fields, i, records, k);
        OwnIsTheOne(fields, i, others, k');
      } else {
        forall k' | 0 <= k' < |others| ensures FieldOf(fields, others[k']) != Some(i) {
          assert others[k'] in records;
        }
        OwnIsNone(fields, i, records);
        OwnIsNone(fields, i, others);
      }
    }
    InterleavingIsIrrelevant(fields, d, records, others, t);
  }
}
