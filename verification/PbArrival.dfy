/** What arrives of a message, field by field and without reference to how it is decoded. */
module PbArrival {
  import opened Bytes
  import opened PbWire
  import opened PbTable
  import opened PbEncode
  import opened PbDecode
  import opened PbRoundTrip

  /** The same value, or for messages the same contents. */
  predicate SameValue(text: Texts, f: Field, sent: Value, got: Value)
    decreases f, 0
  {
    if f.ltype != Submessage then sent == got
    else sent.Msg? && got.Msg? && SameContents(text, f.sub, sent.m, got.m)
  }

  /** Present if it was present, and with the value sent; absent otherwise, and with the default. */
  predicate SameContent(text: Texts, f: Field, sent: Slot, got: Slot)
    decreases f, 1
  {
    match sent
    case Req(v) => got.Req? && SameValue(text, f, v, got.v)
    case Opt(has, v) =>
      && got.Opt? && got.has == has
      && if has then SameValue(text, f, v, got.v) else f.ltype == Submessage || got.v == f.init
    case Rep(vs) => got.Rep? && |got.vs| == |vs| && forall k | 0 <= k < |vs| :: SameValue(text, f, vs[k], got.vs[k])
    case Call(fn) =>
      && got.Call?
      && (fn.Encoder? && got.fn.Decoder? && text(fn.id) != [] ==> got.fn.stored == Some(text(fn.id)))
  }

  predicate SameContents(text: Texts, fields: seq<Field>, sent: seq<Slot>, got: seq<Slot>)
    decreases fields, 2
  {
    |fields| == |sent| == |got| && forall i | 0 <= i < |fields| :: SameContent(text, fields[i], sent[i], got[i])
  }

  lemma NormIsSameValue(p: Pass, text: Texts, f: Field, inner: seq<Slot>, v: Value)
    requires |inner| == |f.sub| && EncValue(p, f, v).Some?
    ensures SameValue(text, f, v, NormValue(text, f, inner, v))
    decreases f, 0, 0
  {
    if f.ltype == Submessage {
      SameLengths(SizingOf(p), f.sub, v.m);
      NormIsSameContents(SizingOf(p), text, f.sub, inner, v.m);
    }
  }

  lemma NormsAreSameValues(p: Pass, text: Texts, f: Field, vs: seq<Value>)
    requires EncItems(p, f, vs).Some?
    ensures var ws := NormValues(text, f, vs);
            |ws| == |vs| && forall k | 0 <= k < |vs| :: SameValue(text, f, vs[k], ws[k])
    decreases f, 1, |vs|
  {
    hide SameValue, NormValue, EncValue;
    if vs != [] {
      NormIsSameValue(p, text, f, Blank(f.sub), vs[0]);
      NormsAreSameValues(p, text, f, vs[1..]);
    }
  }

  lemma NormIsSameContent(p: Pass, text: Texts, f: Field, dest: Slot, slot: Slot)
    requires EncSlot(p, f, slot).Some?
    ensures SameContent(text, f, slot, NormSlot(text, f, dest, slot))
    decreases f, 2, 0
  {
    hide SameValue, NormValue, EncValue, EncItems, EncPacked, NormValues, Defaults;
    if f.atype == Static {
      match slot
      case Req(v) => NormIsSameValue(p, text, f, Inner(f, dest), v);
      case Opt(has, v) =>
        if has {
          NormIsSameValue(p, text, f, Inner(f, dest), v);
        } else {
          AbsentIsDefault(f, dest);
        }
      case Rep(vs) =>
        if Packable(f) {
          NumbersStay(text, f, vs);
          EqualNumbers(text, f, vs);
        } else if vs == [] {
          NothingStays(text, f);
        } else {
          NormsAreSameValues(p, text, f, vs);
        }
    }
  }

  lemma {:induction false} SlotsEncode(p: Pass, fields: seq<Field>, slots: seq<Slot>, i: nat)
    requires i < |fields| == |slots| && Enc(p, fields, slots).Some?
    ensures EncSlot(p, fields[i], slots[i]).Some?
    decreases i
  {
    hide EncSlot;
    if i > 0 {
      SlotsEncode(p, fields[1..], slots[1..], i - 1);
    }
  }

  lemma NormIsSameContents(p: Pass, text: Texts, fields: seq<Field>, dest: seq<Slot>, slots: seq<Slot>)
    requires |fields| == |slots| == |dest| && Enc(p, fields, slots).Some?
    ensures SameContents(text, fields, slots, Norm(text, fields, dest, slots))
    decreases fields, 3, 0
  {
    hide Enc, EncSlot, SameContent, NormSlot;
    forall i | 0 <= i < |fields|
      ensures SameContent(text, fields[i], slots[i], Norm(text, fields, dest, slots)[i])
    {
      SlotsEncode(p, fields, slots, i);
      NormIsSameContent(p, text, fields[i], dest[i], slots[i]);
    }
  }

  /** What is accepted has the contents that were sent, at every level. */
  lemma WhatArrives(p: Pass, text: Texts, fields: seq<Field>, dest: seq<Slot>, slots: seq<Slot>)
    requires WellFormed(fields) && |fields| == |slots| == |dest|
    requires Receiver(fields, dest) && Client(p.script, text, fields, slots)
    requires Enc(p, fields, slots).Some? && |Enc(p, fields, slots).value| < TWO_32
    ensures var got := Decode(fields, dest, Enc(p, fields, slots).value);
            got.Some? ==> SameContents(text, fields, slots, got.value)
  {
    hide WellFormed, Receiver, Client, Enc, Decode, Norm, SendableMessage, SameContents;
    RoundTrip(p, text, fields, dest, slots);
    NormIsSameContents(p, text, fields, dest, slots);
  }

  lemma AbsentIsDefault(f: Field, dest: Slot)
    requires f.atype == Static && f.htype == Optional
    ensures InitSlot(f, dest).Opt? && !InitSlot(f, dest).has
    ensures f.ltype != Submessage ==> InitSlot(f, dest).v == f.init
  {
  }

  lemma EqualNumbers(text: Texts, f: Field, vs: seq<Value>)
    requires Packable(f)
    ensures forall k | 0 <= k < |vs| :: SameValue(text, f, vs[k], vs[k])
  {
  }

  lemma NothingStays(text: Texts, f: Field)
    ensures NormValues(text, f, []) == []
  {
  }
}
