/**
  * The two passes over a submessage, with callbacks that may write anything at any time: when they agree, and what
  * happens when they do not.
  */
module PbPasses {
  import opened Bytes
  import opened PbWire
  import opened PbTable
  import opened PbEncode

  predicate SameSize(a: Option<seq<byte>>, b: Option<seq<byte>>) {
    (a.Some? <==> b.Some?) && (a.Some? ==> |a.value| == |b.value|)
  }

  /** Every callback returns the same and writes as many bytes each time it is called, though not the same ones. */
  ghost predicate StableSizes(script: Script) {
    forall id: nat, a: seq<bool>, b: seq<bool> ::
      script(id, a).ok == script(id, b).ok && |script(id, a).bytes| == |script(id, b).bytes|
  }

  /** Every callback does the same each time it is called. */
  ghost predicate Deterministic(script: Script) {
    forall id: nat, a: seq<bool>, b: seq<bool> :: script(id, a) == script(id, b)
  }

  lemma CatSize(a: Option<seq<byte>>, b: Option<seq<byte>>, c: Option<seq<byte>>, d: Option<seq<byte>>)
    requires SameSize(a, c) && SameSize(b, d)
    ensures SameSize(Cat(a, b), Cat(c, d))
  {
  }

  lemma SubmessageSize(a: Option<seq<byte>>, b: Option<seq<byte>>, c: Option<seq<byte>>, d: Option<seq<byte>>)
    requires SameSize(a, b) && SameSize(b, c) && SameSize(c, d)
    ensures SameSize(SubmessageOf(a, b), SubmessageOf(c, d))
    ensures SubmessageOf(a, b).Some? <==> a.Some?
  {
  }

  lemma ValueSize(p: Pass, q: Pass, f: Field, v: Value)
    requires p.script == q.script && StableSizes(p.script)
    ensures SameSize(EncValue(p, f, v), EncValue(q, f, v))
    decreases f, 0, 0
  {
    hide StableSizes, SubmessageOf, EncScalar;
    if f.ltype == Submessage && v.Msg? {
      MessageSize(SizingOf(p), WritingOf(p), f.sub, v.m);
      MessageSize(SizingOf(p), SizingOf(q), f.sub, v.m);
      MessageSize(SizingOf(q), WritingOf(q), f.sub, v.m);
      var first, first' := Enc(SizingOf(p), f.sub, v.m), Enc(SizingOf(q), f.sub, v.m);
      SubmessageSize(first, if Counting(p) then first else Enc(WritingOf(p), f.sub, v.m),
                     first', if Counting(q) then first' else Enc(WritingOf(q), f.sub, v.m));
    }
  }

  lemma ItemsSize(p: Pass, q: Pass, f: Field, vs: seq<Value>)
    requires p.script == q.script && StableSizes(p.script)
    ensures SameSize(EncItems(p, f, vs), EncItems(q, f, vs))
    decreases f, 1, |vs|
  {
    hide StableSizes, EncValue, EncTag;
    if vs != [] {
      ValueSize(p, q, f, vs[0]);
      ItemsSize(p, q, f, vs[1..]);
    }
  }

  lemma SlotSize(p: Pass, q: Pass, f: Field, slot: Slot)
    requires p.script == q.script && StableSizes(p.script)
    ensures SameSize(EncSlot(p, f, slot), EncSlot(q, f, slot))
    decreases f, 2, 0
  {
    hide EncValue, EncItems, EncPackedArray, EncTag;
    match slot
    case Req(v) => ValueSize(p, q, f, v);
    case Opt(has, v) => ValueSize(p, q, f, v);
    case Rep(vs) => ItemsSize(p, q, f, vs);
    case Call(fn) =>
  }

  /** In any two passes the message takes the same room, or fails to encode in both. */
  lemma MessageSize(p: Pass, q: Pass, fields: seq<Field>, slots: seq<Slot>)
    requires p.script == q.script && StableSizes(p.script)
    ensures SameSize(Enc(p, fields, slots), Enc(q, fields, slots))
    decreases fields, 3, 0
  {
    hide StableSizes, EncSlot;
    if |fields| == |slots| && fields != [] {
      SlotSize(p, q, fields[0], slots[0]);
      MessageSize(p, q, fields[1..], slots[1..]);
      CatSize(EncSlot(p, fields[0], slots[0]), Enc(p, fields[1..], slots[1..]),
              EncSlot(q, fields[0], slots[0]), Enc(q, fields[1..], slots[1..]));
    }
  }

  /** Then the two passes over a submessage agree, at every depth: it encodes whenever it can be sized. */
  lemma PassesAgree(p: Pass, f: Field, m: seq<Slot>)
    requires StableSizes(p.script) && f.ltype == Submessage
    ensures EncValue(p, f, Msg(m)).Some? <==> Enc(SizingOf(p), f.sub, m).Some?
  {
    hide StableSizes, Enc;
    MessageSize(SizingOf(p), WritingOf(p), f.sub, m);
  }

  lemma DeterministicIsStable(script: Script)
    requires Deterministic(script)
    ensures StableSizes(script)
  {
  }

  // ----- deterministic callbacks: the pass does not matter at all

  lemma SameValue(p: Pass, q: Pass, f: Field, v: Value)
    requires p.script == q.script && Deterministic(p.script)
    ensures EncValue(p, f, v) == EncValue(q, f, v)
    decreases f, 0, 0
  {
    hide Deterministic;
    if f.ltype == Submessage && v.Msg? {
      SameMessage(SizingOf(p), WritingOf(p), f.sub, v.m);
      SameMessage(SizingOf(p), SizingOf(q), f.sub, v.m);
      SameMessage(SizingOf(q), WritingOf(q), f.sub, v.m);
    }
  }

  lemma SameItems(p: Pass, q: Pass, f: Field, vs: seq<Value>)
    requires p.script == q.script && Deterministic(p.script)
    ensures EncItems(p, f, vs) == EncItems(q, f, vs)
    decreases f, 1, |vs|
  {
    hide Deterministic, EncValue;
    if vs != [] {
      SameValue(p, q, f, vs[0]);
      SameItems(p, q, f, vs[1..]);
    }
  }

  lemma SameSlot(p: Pass, q: Pass, f: Field, slot: Slot)
    requires p.script == q.script && Deterministic(p.script)
    ensures EncSlot(p, f, slot) == EncSlot(q, f, slot)
    decreases f, 2, 0
  {
    hide EncValue, EncItems, EncPackedArray;
    match slot
    case Req(v) => SameValue(p, q, f, v);
    case Opt(has, v) => SameValue(p, q, f, v);
    case Rep(vs) => SameItems(p, q, f, vs);
    case Call(fn) =>
  }

  lemma SameMessage(p: Pass, q: Pass, fields: seq<Field>, slots: seq<Slot>)
    requires p.script == q.script && Deterministic(p.script)
    ensures Enc(p, fields, slots) == Enc(q, fields, slots)
    decreases fields, 3, 0
  {
    hide Deterministic, EncSlot;
    if |fields| == |slots| && fields != [] {
      SameSlot(p, q, fields[0], slots[0]);
      SameMessage(p, q, fields[1..], slots[1..]);
    }
  }

  /** Deterministic callbacks: the submessage encodes whenever it can be sized, to exactly what was sized. */
  lemma WrittenAsMeasured(p: Pass, f: Field, m: seq<Slot>)
    requires Deterministic(p.script) && f.ltype == Submessage
    ensures var first := Enc(SizingOf(p), f.sub, m);
            EncValue(p, f, Msg(m)) == if first.Some? then Some(EncString(first.value)) else None
  {
    hide Deterministic, StableSizes, Enc;
    DeterministicIsStable(p.script);
    PassesAgree(p, f, m);
    SameMessage(SizingOf(p), WritingOf(p), f.sub, m);
  }

  // ----- a callback that changes its mind

  /** A submessage encodes if and only if both passes do, and write the same number of bytes. */
  lemma FailsExactlyWhenSizesDiffer(p: Pass, f: Field, m: seq<Slot>)
    requires f.ltype == Submessage && !Counting(p)
    ensures EncValue(p, f, Msg(m)).Some? <==>
            Enc(SizingOf(p), f.sub, m).Some? && SameSize(Enc(SizingOf(p), f.sub, m), Enc(WritingOf(p), f.sub, m))
  {
    hide Enc;
  }

  const NOTE := Field(1, StringField, Optional, ByCallback, 8, 0, [], Raw([]))
  const WRAPPER := Field(1, Submessage, Required, Static, 8, 0, [NOTE], Msg([]))

  /** One byte while the message is sized, two while it is written. */
  function Growing(id: nat, path: seq<bool>): Act {
    Act(if path != [] && path[|path| - 1] then [7, 7] else [7], true)
  }

  /** Each pass succeeds by itself, and the message does not encode. */
  lemma GrowingFails()
    ensures var p := Pass(Growing, []);
            && Enc(SizingOf(p), [NOTE], [Call(Encoder(0))]) == Some([7])
            && Enc(WritingOf(p), [NOTE], [Call(Encoder(0))]) == Some([7, 7])
            && Enc(p, [WRAPPER], [Req(Msg([Call(Encoder(0))]))]) == None
  {
    var p := Pass(Growing, []);
    var inner: seq<Slot> := [Call(Encoder(0))];
    assert Enc(SizingOf(p), [NOTE][1..], inner[1..]) == Some([]);
    assert Enc(WritingOf(p), [NOTE][1..], inner[1..]) == Some([]);
    assert SizingOf(p).path == [false] && WritingOf(p).path == [true];
    assert EncSlot(SizingOf(p), NOTE, inner[0]) == Some([7]);
    assert EncSlot(WritingOf(p), NOTE, inner[0]) == Some([7, 7]);
    assert [7] + [] == [7] && [7, 7] + [] == [7, 7];
    assert EncValue(p, WRAPPER, Msg(inner)) == None;
    assert EncTagged(p, WRAPPER, Msg(inner)) == None;
    assert EncSlot(p, WRAPPER, Req(Msg(inner))) == None;
  }
}
