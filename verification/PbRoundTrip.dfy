/** Decoding undoes encoding, for every table and every message. */
module PbRoundTrip {
  import opened Bytes
  import opened PbWire
  import opened PbTable
  import opened PbEncode
  import opened PbDecode

  // ----- single values

  lemma CastIsIdentity(n: int, d: nat)
    requires ValidSize(d) && -Half(d) <= n < Half(d)
    ensures Cast(n, d) == n
  {
    if d == 1 {} else if d == 2 {} else if d == 4 {} else {}
  }

  lemma VarintValueRoundTrip(n: int, d: nat)
    requires ValidSize(d) && -Half(d) <= n < Half(d)
    ensures VarintValue(d, U64(n)) == Some(n)
  {
    HalfBounds(d);
    CastIsIdentity(n, d);
    if d != 8 {
      assert U64(n) % TWO_32 == n % TWO_32;
      CastIsIdentity(n, 4);
    }
  }

  lemma UVarintValueRoundTrip(n: nat, d: nat)
    requires ValidSize(d) && n < 2 * Half(d)
    ensures UVarintValue(d, n) == Some(n)
  {
    if d == 1 {} else if d == 2 {} else if d == 4 {} else {}
  }

  lemma IntRoundTrip(f: Field, v: Value, t: seq<byte>)
    requires f.ltype in {Varint, UVarint, SVarint} && EncScalar(f, v).Some?
    ensures ReadInt(f, EncScalar(f, v).value + t) == Got(v, t)
  {
    hide ReadVarint, EncVarint, VarintValue, UVarintValue, Half, Cast, ZigZag, UnZigZag;
    HalfBounds(f.dataSize);
    match f.ltype
    case Varint =>
      VarintRoundTrip(U64(v.n), t);
      VarintValueRoundTrip(v.n, f.dataSize);
    case UVarint =>
      VarintRoundTrip(v.n, t);
      UVarintValueRoundTrip(v.n, f.dataSize);
    case SVarint =>
      VarintRoundTrip(ZigZag(v.n), t);
      ZigZagRoundTrip(v.n, 0);
      CastIsIdentity(v.n, f.dataSize);
  }

  lemma ReadFixedRoundTrip(n: nat, width: nat, t: seq<byte>)
    requires n < Pow256(width)
    ensures ReadFixed(EncFixed(n, width) + t, width) == Got(Int(n), t)
  {
    var s := EncFixed(n, width);
    FixedRoundTrip(n, width);
    assert (s + t)[..width] == s && (s + t)[width..] == t;
  }

  lemma Pow256OfWidths()
    ensures Pow256(4) == TWO_32 && Pow256(8) == TWO_64
  {
    Pow256Values();
    assert Pow256(4) == 0x1_0000 * Pow256(2);
  }

  /** The bytes in front of the terminator have no zero in them. */
  lemma {:induction false} StrLenOfPrefix(b: seq<byte>)
    ensures StrLen(b[..StrLen(b)]) == StrLen(b)
  {
    var p := b[..StrLen(b)];
    assert forall k | 0 <= k < |p| :: p[k] == b[k];
  }

  /** The field is written at all. */
  predicate Present(slot: Slot) {
    match slot
    case Req(_) => true
    case Opt(has, _) => has
    case Rep(vs) => vs != []
    case Call(fn) => fn.Encoder?
  }

  /** A string is accepted on the other side if and only if its buffer has room for the terminator. */
  predicate Sendable(f: Field, v: Value)
    decreases f, 0, 0
  {
    match f.ltype
    case StringField => v.Raw? && StrLen(v.b) < |v.b|
    case Submessage => v.Msg? && SendableMessage(f.sub, v.m)
    case _ => true
  }

  predicate SendableSlot(f: Field, slot: Slot)
    decreases f, 1, 0
  {
    match slot
    case Req(v) => Sendable(f, v)
    case Opt(has, v) => has ==> Sendable(f, v)
    case Rep(vs) => AllSendable(f, vs)
    case Call(_) => true
  }

  predicate AllSendable(f: Field, vs: seq<Value>)
    decreases f, 0, 1
  {
    forall k | 0 <= k < |vs| :: Sendable(f, vs[k])
  }

  /** A message is accepted if its strings are, and if no required field that is kept track of has an unset callback. */
  predicate SendableMessage(fields: seq<Field>, slots: seq<Slot>)
    decreases fields, 2, 0
  {
    |fields| == |slots|
    && forall i | 0 <= i < |fields| :: SendableSlot(fields[i], slots[i]) && (Tracked(fields, i) ==> Present(slots[i]))
  }

  lemma BlobRoundTrip(f: Field, v: Value, t: seq<byte>)
    requires f.ltype in {BytesField, StringField, FixedBytes} && f.dataSize <= SIZE_MAX && EncScalar(f, v).Some?
    ensures ReadBlob(f, EncScalar(f, v).value + t) == if Sendable(f, v) then Got(v, t) else Bad
  {
    hide ReadLength, EncString, StrLen;
    var b := if f.ltype == StringField then v.b[..StrLen(v.b)] else v.b;
    StringRoundTrip(b, t);
    assert (b + t)[..|b|] == b && (b + t)[|b|..] == t;
    if f.ltype == StringField {
      StrLenOfPrefix(v.b);
      assert b[..|b|] == b;
      if StrLen(v.b) < |v.b| {
        assert v.b == b + [0];
      }
    } else if f.ltype == FixedBytes && |b| == 0 {
      assert v.b == [];
    }
  }

  lemma ScalarRoundTrip(f: Field, v: Value, t: seq<byte>)
    requires f.dataSize <= SIZE_MAX && EncScalar(f, v).Some?
    ensures ReadScalar(f, EncScalar(f, v).value + t) == if Sendable(f, v) then Got(v, t) else Bad
  {
    hide ReadInt, ReadFixed, ReadBlob, EncFixed, EncString, EncVarint, StrLen, Half;
    Pow256OfWidths();
    match f.ltype
    case Varint => IntRoundTrip(f, v, t);
    case UVarint => IntRoundTrip(f, v, t);
    case SVarint => IntRoundTrip(f, v, t);
    case Fixed32 => ReadFixedRoundTrip(v.n, 4, t);
    case Fixed64 => ReadFixedRoundTrip(v.n, 8, t);
    case BytesField => BlobRoundTrip(f, v, t);
    case StringField => BlobRoundTrip(f, v, t);
    case FixedBytes => BlobRoundTrip(f, v, t);
    case Submessage =>
  }

  lemma {:induction false} PackedRoundTrip(f: Field, done: seq<Value>, vs: seq<Value>)
    requires Packable(f) && f.dataSize <= SIZE_MAX && |done| + |vs| <= f.arraySize && EncPacked(f, vs).Some?
    ensures ReadPacked(f, done, EncPacked(f, vs).value) == Some(done + vs)
    decreases |vs|
  {
    hide EncScalar, ReadScalar;
    if vs == [] {
      assert done + vs == done;
    } else {
      var rest := EncPacked(f, vs[1..]).value;
      ScalarRoundTrip(f, vs[0], rest);
      ScalarShrinks(f, EncPacked(f, vs).value);
      PackedRoundTrip(f, done + [vs[0]], vs[1..]);
      assert done + [vs[0]] + vs[1..] == done + vs;
    }
  }

  // ----- the callbacks of the speech client

  /** The strings behind the callbacks: `encode_string` of callback `id` writes `text(id)`. */
  type Texts = nat -> seq<byte>

  /** What the client's callback writes: its field's tag and its string, in every pass. */
  ghost predicate WritesText(script: Script, text: Texts, f: Field, id: nat) {
    && f.ltype in {BytesField, StringField} && |text(id)| < TWO_32
    && forall path: seq<bool> :: script(id, path) == Act(TextField(f, text(id)), true)
  }

  /** Every callback in the message is the client's. */
  ghost predicate Client(script: Script, text: Texts, fields: seq<Field>, slots: seq<Slot>)
    requires |slots| == |fields|
    decreases fields, 3, 0
  {
    forall i | 0 <= i < |fields| :: ClientSlot(script, text, fields[i], slots[i])
  }

  ghost predicate ClientSlot(script: Script, text: Texts, f: Field, slot: Slot)
    decreases f, 2, 0
  {
    match slot
    case Req(v) => ClientValue(script, text, f, v)
    case Opt(has, v) => has ==> ClientValue(script, text, f, v)
    case Rep(vs) => ClientValues(script, text, f, vs)
    case Call(fn) => fn.Encoder? ==> WritesText(script, text, f, fn.id)
  }

  ghost predicate ClientValues(script: Script, text: Texts, f: Field, vs: seq<Value>)
    decreases f, 1, 0
  {
    forall k | 0 <= k < |vs| :: ClientValue(script, text, f, vs[k])
  }

  ghost predicate ClientValue(script: Script, text: Texts, f: Field, v: Value)
    decreases f, 0, 0
  {
    f.ltype == Submessage && v.Msg? && |v.m| == |f.sub| ==> Client(script, text, f.sub, v.m)
  }

  /** The receiver has set no writing function anywhere. */
  predicate Receiver(fields: seq<Field>, dest: seq<Slot>)
    requires |dest| == |fields|
    decreases fields, 1
  {
    forall i | 0 <= i < |fields| :: ReceiverSlot(fields[i], dest[i])
  }

  predicate ReceiverSlot(f: Field, slot: Slot)
    decreases f, 0
  {
    if f.atype == ByCallback then !(slot.Call? && slot.fn.Encoder?)
    else f.ltype == Submessage && f.htype != Repeated ==> Receiver(f.sub, Inner(f, slot))
  }

  lemma BlankReceives(fields: seq<Field>)
    ensures Receiver(fields, Blank(fields))
    decreases fields
  {
    forall i | 0 <= i < |fields| ensures ReceiverSlot(fields[i], BlankSlot(fields[i])) {
      var f := fields[i];
      if f.atype == Static && f.ltype == Submessage && f.htype != Repeated {
        BlankReceives(f.sub);
        assert Inner(f, BlankSlot(f)) == Blank(f.sub);
      }
    }
  }

  // ----- what comes back: absent optional fields hold their defaults, strings have gone to the receiver's callbacks

  /** `inner` is what the receiver had prepared for a submessage. */
  function NormValue(text: Texts, f: Field, inner: seq<Slot>, v: Value): Value
    requires |inner| == |f.sub|
    decreases f, 0, 0
  {
    if f.ltype == Submessage && v.Msg? && |v.m| == |f.sub| then Msg(Norm(text, f.sub, inner, v.m)) else v
  }

  function NormSlot(text: Texts, f: Field, dest: Slot, slot: Slot): Slot
    decreases f, 2, 0
  {
    match slot
    case Req(v) => Req(NormValue(text, f, Inner(f, dest), v))
    case Opt(has, v) => if has then Opt(true, NormValue(text, f, Inner(f, dest), v)) else InitSlot(f, dest)
    case Rep(vs) => Rep(NormValues(text, f, vs))
    case Call(fn) => if fn.Encoder? then Told(InitSlot(f, dest), text(fn.id)) else InitSlot(f, dest)
  }

  /** The receiver's callback gets the string. */
  function Told(slot: Slot, content: seq<byte>): Slot {
    if slot.Call? && slot.fn.Decoder? then Call(Decoder(Store(slot.fn.stored, content))) else slot
  }

  function NormValues(text: Texts, f: Field, vs: seq<Value>): (r: seq<Value>)
    ensures |r| == |vs|
    decreases f, 1, |vs|
  {
    if vs == [] then [] else [NormValue(text, f, Blank(f.sub), vs[0])] + NormValues(text, f, vs[1..])
  }

  function Norm(text: Texts, fields: seq<Field>, dest: seq<Slot>, slots: seq<Slot>): (r: seq<Slot>)
    requires |fields| == |slots| == |dest|
    ensures |r| == |slots|
    ensures forall i | 0 <= i < |slots| :: r[i] == NormSlot(text, fields[i], dest[i], slots[i])
    decreases fields, 3, 0
  {
    seq(|slots|, i requires 0 <= i < |slots| => NormSlot(text, fields[i], dest[i], slots[i]))
  }

  // ----- one record

  function StepOf(fields: seq<Field>, d: Dest, i: nat, r: Read<Slot>): Step
    requires Fits(fields, d) && i < |fields|
  {
    match r
    case Got(slot, rest) => Next(Dest(d.slots[i := slot], d.seen[i := true]), rest)
    case Bad => Fail
  }

  /** A record that starts with the tag of field `i` is read as field `i`. */
  lemma TagRoundTrip(fields: seq<Field>, i: nat, d: Dest, wire: nat, x: seq<byte>)
    requires WellFormed(fields) && Fits(fields, d) && i < |fields| && wire < 8
    ensures var s := EncTag(fields[i].tag, wire) + x;
            && s != []
            && OneRecord(fields, d, s) == StepOf(fields, d, i, ReadField(fields[i], WireTypeOf(wire), d.slots[i], x))
  {
    hide ReadField, Lookup, ReadVarint32, EncVarint, WellFormed;
    FieldIsWellFormed(fields, i);
    LookupIsUnique(fields, i);
    Varint32RoundTrip(8 * fields[i].tag + wire, x);
  }

  lemma ValueRoundTrip(p: Pass, text: Texts, f: Field, inner: seq<Slot>, cur: Value, v: Value, t: seq<byte>)
    requires WellFormedField(f) && f.atype == Static && |inner| == |f.sub| && Receiver(f.sub, inner)
    requires if f.htype == Repeated then inner == Blank(f.sub)
             else f.ltype == Submessage ==> cur == Msg(Defaults(f.sub, inner))
    requires EncValue(p, f, v).Some? && |EncValue(p, f, v).value| < TWO_32 && ClientValue(p.script, text, f, v)
    ensures ReadValue(f, cur, EncValue(p, f, v).value + t) ==
            if Sendable(f, v) then Got(NormValue(text, f, inner, v), t) else Bad
    decreases f, 0, 0
  {
    hide EncScalar, ReadScalar, ReadString, EncString, WellFormed, Receiver, Client;
    if f.ltype != Submessage {
      ScalarRoundTrip(f, v, t);
    } else {
      var q := if Counting(p) then SizingOf(p) else WritingOf(p);
      var e := Enc(q, f.sub, v.m).value;
      SameLengths(q, f.sub, v.m);
      StringRoundTrip(e, t);
      MessageRoundTrip(q, text, f.sub, inner, v.m);
    }
  }

  lemma SameLengths(p: Pass, fields: seq<Field>, slots: seq<Slot>)
    ensures Enc(p, fields, slots).Some? ==> |fields| == |slots|
  {
  }

  /** The slot after a value has been read into it. */
  function Received(slot: Slot, v: Value): Slot {
    match slot
    case Req(_) => Req(v)
    case Opt(_, _) => Opt(true, v)
    case Rep(vs) => Rep(vs + [v])
    case Call(_) => slot
  }

  /** The field is still to come, or has room for one more entry. */
  predicate Expects(f: Field, dest: Slot, slot: Slot) {
    f.atype == Static &&
    if f.htype == Repeated then slot.Rep? && |slot.vs| < f.arraySize && !Packable(f) else slot == InitSlot(f, dest)
  }

  /** What the receiver had prepared for the submessage that is read next into the field. */
  function Prepared(f: Field, dest: Slot): (m: seq<Slot>)
    ensures |m| == |f.sub|
  {
    if f.htype == Repeated then Blank(f.sub) else Inner(f, dest)
  }

  lemma NextValue(f: Field, dest: Slot, slot: Slot)
    requires Expects(f, dest, slot) && f.ltype == Submessage && f.htype != Repeated
    ensures var m := Msg(Defaults(f.sub, Prepared(f, dest))); slot == Req(m) || slot == Opt(false, m)
  {
    hide Defaults, Inner;
    assert InitValue(f, dest) == Msg(Defaults(f.sub, Inner(f, dest)));
  }

  lemma TaggedRoundTrip(p: Pass, text: Texts, fields: seq<Field>, i: nat, d: Dest, dest: Slot, v: Value, t: seq<byte>)
    requires WellFormed(fields) && Fits(fields, d) && i < |fields| && Expects(fields[i], dest, d.slots[i])
    requires ReceiverSlot(fields[i], dest) && ClientValue(p.script, text, fields[i], v)
    requires EncTagged(p, fields[i], v).Some? && |EncTagged(p, fields[i], v).value| < TWO_32
    ensures var f := fields[i];
            var slot := Received(d.slots[i], NormValue(text, f, Prepared(f, dest), v));
            Parse(fields, d, EncTagged(p, f, v).value + t) ==
            if Sendable(f, v) then Parse(fields, Dest(d.slots[i := slot], d.seen[i := true]), t) else None
    decreases fields, 1, 0
  {
    hide ReadValue, EncValue, EncTag, OneRecord, WellFormed, NormValue, Sendable, ClientValue, Receiver;
    var f := fields[i];
    FieldIsWellFormed(fields, i);
    var wire, body := WireNumber(f.ltype), EncValue(p, f, v).value;
    assert EncTagged(p, f, v).value + t == EncTag(f.tag, wire) + (body + t);
    TagRoundTrip(fields, i, d, wire, body + t);
    BlankReceives(f.sub);
    var cur := match d.slots[i] case Req(c) => c case Opt(_, c) => c case _ => Int(0);
    if f.ltype == Submessage {
      if f.htype != Repeated {
        NextValue(f, dest, d.slots[i]);
      }
      ValueRoundTrip(p, text, f, Prepared(f, dest), cur, v, t);
    } else {
      ScalarTagged(p, text, f, Prepared(f, dest), cur, v, t);
    }
  }

  lemma ScalarTagged(p: Pass, text: Texts, f: Field, inner: seq<Slot>, cur: Value, v: Value, t: seq<byte>)
    requires WellFormedField(f) && f.ltype != Submessage && |inner| == |f.sub| && EncValue(p, f, v).Some?
    ensures ReadValue(f, cur, EncValue(p, f, v).value + t) ==
            if Sendable(f, v) then Got(NormValue(text, f, inner, v), t) else Bad
  {
    hide EncScalar, ReadScalar;
    ScalarRoundTrip(f, v, t);
  }

  lemma FirstAndRest(p: Pass, text: Texts, f: Field, vs: seq<Value>)
    ensures vs == [] ==> AllSendable(f, vs)
    ensures vs != [] ==> (AllSendable(f, vs) <==> Sendable(f, vs[0]) && AllSendable(f, vs[1..]))
    ensures vs != [] && ClientValues(p.script, text, f, vs) ==>
              ClientValue(p.script, text, f, vs[0]) && ClientValues(p.script, text, f, vs[1..])
  {
    hide Sendable, ClientValue;
  }

  lemma ItemsRoundTrip(p: Pass, text: Texts, fields: seq<Field>, i: nat, d: Dest, vs: seq<Value>, t: seq<byte>)
    requires WellFormed(fields) && Fits(fields, d) && i < |fields|
    requires fields[i].atype == Static && fields[i].htype == Repeated && !Packable(fields[i])
    requires d.slots[i].Rep? && |d.slots[i].vs| + |vs| <= fields[i].arraySize
    requires ClientValues(p.script, text, fields[i], vs)
    requires EncItems(p, fields[i], vs).Some? && |EncItems(p, fields[i], vs).value| < TWO_32
    ensures var f := fields[i];
            var slot := Rep(d.slots[i].vs + NormValues(text, f, vs));
            Parse(fields, d, EncItems(p, f, vs).value + t) ==
            if AllSendable(f, vs) then Parse(fields, Dest(d.slots[i := slot], d.seen[i := d.seen[i] || vs != []]), t)
            else None
    decreases fields, 2, |vs|
  {
    hide EncTagged, WellFormed, NormValue, Parse, AllSendable, ClientValues, ClientValue, Receiver;
    var f := fields[i];
    FirstAndRest(p, text, f, vs);
    if vs == [] {
      assert EncItems(p, f, vs).value + t == t;
      assert d.slots[i].vs + [] == d.slots[i].vs;
      assert d.slots[i := Rep(d.slots[i].vs + [])] == d.slots;
      assert d.seen[i := d.seen[i]] == d.seen;
    } else {
      var rest := EncItems(p, f, vs[1..]).value;
      assert EncItems(p, f, vs).value + t == EncTagged(p, f, vs[0]).value + (rest + t);
      TaggedRoundTrip(p, text, fields, i, d, Rep([]), vs[0], rest + t);
      var before := d.slots[i].vs;
      var first := NormValue(text, f, Blank(f.sub), vs[0]);
      var d' := Dest(d.slots[i := Rep(before + [first])], d.seen[i := true]);
      ItemsRoundTrip(p, text, fields, i, d', vs[1..], t);
      assert before + [first] + NormValues(text, f, vs[1..]) == before + NormValues(text, f, vs);
      assert d'.seen[i := true] == d.seen[i := true];
      assert d'.slots[i := Rep(before + NormValues(text, f, vs))]
             == d.slots[i := Rep(before + NormValues(text, f, vs))];
    }
  }

  lemma {:induction false} NumbersStay(text: Texts, f: Field, vs: seq<Value>)
    requires Packable(f)
    ensures NormValues(text, f, vs) == vs && AllSendable(f, vs)
    decreases |vs|
  {
    if vs != [] {
      NumbersStay(text, f, vs[1..]);
    }
  }

  lemma ArrayRoundTrip(p: Pass, text: Texts, fields: seq<Field>, i: nat, d: Dest, vs: seq<Value>, t: seq<byte>)
    requires WellFormed(fields) && Fits(fields, d) && i < |fields|
    requires fields[i].atype == Static && fields[i].htype == Repeated
    requires d.slots[i] == Rep([]) && ClientValues(p.script, text, fields[i], vs)
    requires EncArray(p, fields[i], vs).Some? && |EncArray(p, fields[i], vs).value| < TWO_32
    ensures var f := fields[i];
            var slot := Rep(NormValues(text, f, vs));
            Parse(fields, d, EncArray(p, f, vs).value + t) ==
            if AllSendable(f, vs) then Parse(fields, Dest(d.slots[i := slot], d.seen[i := d.seen[i] || vs != []]), t)
            else None
    decreases fields, 3, 0
  {
    hide WellFormed, Sendable, EncTag, OneRecord, EncPacked, ReadPacked, EncString, ReadString, EncItems, NormValue,
         ReadValue, ClientValues;
    var f := fields[i];
    FieldIsWellFormed(fields, i);
    if vs == [] {
      assert [] + t == t && d.slots[i := Rep([])] == d.slots && d.seen[i := d.seen[i]] == d.seen;
    } else if !Packable(f) {
      ItemsRoundTrip(p, text, fields, i, d, vs, t);
      assert [] + NormValues(text, f, vs) == NormValues(text, f, vs);
    } else {
      var body := EncPacked(f, vs).value;
      NumbersStay(text, f, vs);
      PackedRoundTrip(f, [], vs);
      StringRoundTrip(body, t);
      assert EncArray(p, f, vs).value + t == EncTag(f.tag, 2) + (EncString(body) + t);
      TagRoundTrip(fields, i, d, 2, EncString(body) + t);
      assert [] + vs == vs;
    }
  }

  /** What the sender's callback wrote is handed to the receiver's, or skipped if there is none. */
  lemma StringArrives(slot: Slot, content: seq<byte>, t: seq<byte>)
    requires slot.Call? && !slot.fn.Encoder? && |content| < TWO_32
    ensures ReadCallback(StringWt, slot.fn, EncString(content) + t) == Got(Told(slot, content), t)
  {
    hide ReadString, EncString, Store;
    StringRoundTrip(content, t);
  }

  lemma CallbackRoundTrip(p: Pass, text: Texts, fields: seq<Field>, i: nat, d: Dest, dest: Slot, fn: Callback,
                          t: seq<byte>)
    requires WellFormed(fields) && Fits(fields, d) && i < |fields| && fields[i].atype == ByCallback
    requires ReceiverSlot(fields[i], dest) && ClientSlot(p.script, text, fields[i], Call(fn))
    requires d.slots[i] == InitSlot(fields[i], dest) && EncCallback(p, fn).Some?
    ensures var f, slot := fields[i], NormSlot(text, fields[i], dest, Call(fn));
            Parse(fields, d, EncCallback(p, fn).value + t) ==
            Parse(fields, Dest(d.slots[i := slot], d.seen[i := d.seen[i] || fn.Encoder?]), t)
  {
    hide WellFormed, EncTag, EncString, OneRecord, ReadCallback, Told;
    var f := fields[i];
    if fn.Encoder? {
      var content := text(fn.id);
      StringArrives(d.slots[i], content, t);
      assert EncCallback(p, fn).value + t == EncTag(f.tag, WireNumber(f.ltype)) + (EncString(content) + t);
      TagRoundTrip(fields, i, d, 2, EncString(content) + t);
    } else {
      assert [] + t == t && d.slots[i := d.slots[i]] == d.slots && d.seen[i := d.seen[i]] == d.seen;
    }
  }

  lemma SlotRoundTrip(p: Pass, text: Texts, fields: seq<Field>, i: nat, d: Dest, dest: Slot, slot: Slot, t: seq<byte>)
    requires WellFormed(fields) && Fits(fields, d) && i < |fields|
    requires d.slots[i] == InitSlot(fields[i], dest) && ReceiverSlot(fields[i], dest)
    requires ClientSlot(p.script, text, fields[i], slot)
    requires EncSlot(p, fields[i], slot).Some? && |EncSlot(p, fields[i], slot).value| < TWO_32
    ensures var f := fields[i];
            Parse(fields, d, EncSlot(p, f, slot).value + t) ==
            if SendableSlot(f, slot) then
              Parse(fields, Dest(d.slots[i := NormSlot(text, f, dest, slot)], d.seen[i := d.seen[i] || Present(slot)]),
                    t)
            else None
    decreases fields, 4, 0
  {
    hide WellFormed, EncTagged, EncArray, EncCallback, Parse, NormValue, NormValues, Sendable, ClientValue,
         ClientValues, Receiver, WritesText, AllSendable;
    match slot
    case Req(v) =>
      TaggedRoundTrip(p, text, fields, i, d, dest, v, t);
    case Opt(has, v) =>
      if has {
        TaggedRoundTrip(p, text, fields, i, d, dest, v, t);
      } else {
        assert [] + t == t && d.slots[i := InitSlot(fields[i], dest)] == d.slots && d.seen[i := d.seen[i]] == d.seen;
      }
    case Rep(vs) =>
      ArrayRoundTrip(p, text, fields, i, d, vs, t);
    case Call(fn) =>
      CallbackRoundTrip(p, text, fields, i, d, dest, fn, t);
  }

  /** The strings from field `i` on are sendable. */
  predicate SendableFrom(fields: seq<Field>, slots: seq<Slot>, i: nat)
    requires |slots| == |fields|
  {
    forall j | i <= j < |fields| :: SendableSlot(fields[j], slots[j])
  }

  lemma OneMoreSlot(s: seq<Slot>, r: seq<Slot>, i: nat)
    requires i < |s| == |r|
    ensures s[i := r[i]][..i + 1] + r[i + 1..] == s[..i] + r[i..]
  {
  }

  lemma FieldsRoundTrip(p: Pass, text: Texts, fields: seq<Field>, dest: seq<Slot>, slots: seq<Slot>, i: nat, d: Dest)
    requires WellFormed(fields) && Fits(fields, d) && i <= |fields| == |slots| == |dest|
    requires Receiver(fields, dest) && Client(p.script, text, fields, slots)
    requires forall j | i <= j < |fields| :: d.slots[j] == InitSlot(fields[j], dest[j])
    requires Enc(p, fields[i..], slots[i..]).Some? && |Enc(p, fields[i..], slots[i..]).value| < TWO_32
    ensures var r := Parse(fields, d, Enc(p, fields[i..], slots[i..]).value);
            if SendableFrom(fields, slots, i) then
              && r.Some? && r.value.slots == d.slots[..i] + Norm(text, fields, dest, slots)[i..]
              && (forall j | 0 <= j < |fields| :: r.value.seen[j] == (d.seen[j] || (j >= i && Present(slots[j]))))
            else r == None
    decreases fields, 5, |fields| - i
  {
    hide WellFormed, EncSlot, NormSlot, SendableSlot, OneRecord, InitSlot, ReceiverSlot, ClientSlot, Present;
    if i < |fields| {
      EncPrefix(p, fields, slots, i);
      var rest := Enc(p, fields[i + 1..], slots[i + 1..]).value;
      SlotRoundTrip(p, text, fields, i, d, dest[i], slots[i], rest);
      assert SendableFrom(fields, slots, i) <==>
             SendableSlot(fields[i], slots[i]) && SendableFrom(fields, slots, i + 1);
      if SendableSlot(fields[i], slots[i]) {
        var r := Norm(text, fields, dest, slots);
        var d' := Dest(d.slots[i := r[i]], d.seen[i := d.seen[i] || Present(slots[i])]);
        FieldsRoundTrip(p, text, fields, dest, slots, i + 1, d');
        OneMoreSlot(d.slots, r, i);
      }
    }
  }

  lemma MessageRoundTrip(p: Pass, text: Texts, fields: seq<Field>, dest: seq<Slot>, slots: seq<Slot>)
    requires WellFormed(fields) && |fields| == |slots| == |dest|
    requires Receiver(fields, dest) && Client(p.script, text, fields, slots)
    requires Enc(p, fields, slots).Some? && |Enc(p, fields, slots).value| < TWO_32
    ensures DecodeNoinit(fields, Defaults(fields, dest), Enc(p, fields, slots).value) ==
            if SendableMessage(fields, slots) then Some(Norm(text, fields, dest, slots)) else None
    decreases fields, 6, 0
  {
    hide WellFormed, Parse, Norm, SendableSlot, InitSlot, Tracked, Present, Receiver, Client;
    assert fields[0..] == fields && slots[0..] == slots;
    var d := Start(Defaults(fields, dest));
    FieldsRoundTrip(p, text, fields, dest, slots, 0, d);
    if SendableFrom(fields, slots, 0) {
      assert d.slots[..0] + Norm(text, fields, dest, slots)[0..] == Norm(text, fields, dest, slots);
    }
  }

  /**
    * For every well-formed table, every message that encodes and every receiver: decoding the encoding gives the
    * message back, with its strings in the receiver's callbacks and defaults in absent optional fields, if and only if
    * every string in it is terminated within its buffer and no required field lacks its callback.
    */
  lemma RoundTrip(p: Pass, text: Texts, fields: seq<Field>, dest: seq<Slot>, slots: seq<Slot>)
    requires WellFormed(fields) && |fields| == |slots| == |dest|
    requires Receiver(fields, dest) && Client(p.script, text, fields, slots)
    requires Enc(p, fields, slots).Some? && |Enc(p, fields, slots).value| < TWO_32
    ensures Decode(fields, dest, Enc(p, fields, slots).value) ==
            if SendableMessage(fields, slots) then Some(Norm(text, fields, dest, slots)) else None
  {
    MessageRoundTrip(p, text, fields, dest, slots);
  }

  // ----- the received message is as good as the sent one, where it has no callbacks

  /** No field, at any level, is handled by a callback. */
  predicate Plain(fields: seq<Field>) {
    forall i | 0 <= i < |fields| ::
      fields[i].atype == Static && (fields[i].ltype == Submessage ==> Plain(fields[i].sub))
  }

  lemma ResentValue(p: Pass, text: Texts, f: Field, inner: seq<Slot>, v: Value)
    requires |inner| == |f.sub| && (f.ltype == Submessage ==> Plain(f.sub)) && EncValue(p, f, v).Some?
    ensures EncValue(p, f, NormValue(text, f, inner, v)) == EncValue(p, f, v)
    decreases f, 0, 0
  {
    if f.ltype == Submessage {
      SameLengths(SizingOf(p), f.sub, v.m);
      assert f.sub[0..] == f.sub && v.m[0..] == v.m;
      assert Norm(text, f.sub, inner, v.m)[0..] == Norm(text, f.sub, inner, v.m);
      ResentMessage(SizingOf(p), text, f.sub, inner, v.m, 0);
      if !Counting(p) {
        ResentMessage(WritingOf(p), text, f.sub, inner, v.m, 0);
      }
    }
  }

  lemma ResentItems(p: Pass, text: Texts, f: Field, vs: seq<Value>)
    requires (f.ltype == Submessage ==> Plain(f.sub)) && EncItems(p, f, vs).Some?
    ensures EncItems(p, f, NormValues(text, f, vs)) == EncItems(p, f, vs)
    decreases f, 1, |vs|
  {
    hide EncValue, NormValue, Plain;
    if vs != [] {
      ResentValue(p, text, f, Blank(f.sub), vs[0]);
      ResentItems(p, text, f, vs[1..]);
      assert NormValues(text, f, vs)[1..] == NormValues(text, f, vs[1..]);
    }
  }

  lemma ResentSlot(p: Pass, text: Texts, f: Field, dest: Slot, slot: Slot)
    requires f.atype == Static && (f.ltype == Submessage ==> Plain(f.sub)) && EncSlot(p, f, slot).Some?
    ensures EncSlot(p, f, NormSlot(text, f, dest, slot)) == EncSlot(p, f, slot)
    decreases f, 2, 0
  {
    hide EncValue, NormValue, EncItems, EncPacked, NormValues, Plain, InitValue;
    match slot
    case Req(v) => ResentValue(p, text, f, Inner(f, dest), v);
    case Opt(has, v) =>
      if has {
        ResentValue(p, text, f, Inner(f, dest), v);
      }
    case Rep(vs) =>
      if Packable(f) {
        NumbersStay(text, f, vs);
      } else if vs != [] {
        ResentItems(p, text, f, vs);
      }
  }

  lemma ResentMessage(p: Pass, text: Texts, fields: seq<Field>, dest: seq<Slot>, slots: seq<Slot>, i: nat)
    requires i <= |fields| == |slots| == |dest| && Plain(fields) && Enc(p, fields[i..], slots[i..]).Some?
    ensures Enc(p, fields[i..], Norm(text, fields, dest, slots)[i..]) == Enc(p, fields[i..], slots[i..])
    decreases fields, 3, |fields| - i
  {
    hide EncSlot, NormSlot;
    if i < |fields| {
      EncPrefix(p, fields, slots, i);
      EncPrefix(p, fields, Norm(text, fields, dest, slots), i);
      ResentSlot(p, text, fields[i], dest[i], slots[i]);
      ResentMessage(p, text, fields, dest, slots, i + 1);
    }
  }

  /** What was received encodes to the same bytes, so it can be passed on any number of times. */
  lemma ReceivedEncodesAlike(p: Pass, text: Texts, fields: seq<Field>, dest: seq<Slot>, slots: seq<Slot>)
    requires |fields| == |slots| == |dest| && Plain(fields) && Enc(p, fields, slots).Some?
    ensures Enc(p, fields, Norm(text, fields, dest, slots)) == Enc(p, fields, slots)
  {
    assert fields[0..] == fields && slots[0..] == slots;
    assert Norm(text, fields, dest, slots)[0..] == Norm(text, fields, dest, slots);
    ResentMessage(p, text, fields, dest, slots, 0);
  }
}
