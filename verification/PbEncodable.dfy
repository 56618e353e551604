/** Which messages encode at all. */
module PbEncodable {
  import opened Bytes
  import opened PbWire
  import opened PbTable
  import opened PbEncode
  import opened PbPasses
  import opened PbBounds

  /** A C string in its buffer: no zero but the last byte, which may be missing only if the buffer is full. */
  predicate CString(size: nat, b: seq<byte>) {
    && |b| <= size
    && (forall i | 0 <= i < |b| - 1 :: b[i] != 0)
    && (|b| == size || (b != [] && b[|b| - 1] == 0))
  }

  /** The value fits its field; the callbacks in a message agree to write. */
  predicate CanEncode(script: Script, f: Field, v: Value)
    decreases f, 0
  {
    match f.ltype
    case Varint => v.Int? && Signed(v.n, f.dataSize)
    case UVarint => v.Int? && Unsigned(v.n, f.dataSize)
    case SVarint => v.Int? && Signed(v.n, f.dataSize)
    case Fixed32 => v.Int? && 0 <= v.n < 0x1_0000_0000
    case Fixed64 => v.Int? && 0 <= v.n < 0x1_0000_0000_0000_0000
    case BytesField => v.Raw? && |v.b| < f.dataSize
    case StringField => v.Raw? && CString(f.dataSize, v.b)
    case FixedBytes => v.Raw? && |v.b| == f.dataSize
    case Submessage => v.Msg? && CanEncodeAll(script, f.sub, v.m)
  }

  predicate CanEncodeSlot(script: Script, f: Field, slot: Slot)
    decreases f, 1
  {
    if f.atype == ByCallback then slot.Call? && (slot.fn.Unset? || (slot.fn.Encoder? && script(slot.fn.id, []).ok))
    else
      match slot
      case Req(v) => f.htype == Required && CanEncode(script, f, v)
      case Opt(has, v) => f.htype == Optional && (has ==> CanEncode(script, f, v))
      case Rep(vs) =>
        f.htype == Repeated && |vs| <= f.arraySize && forall k | 0 <= k < |vs| :: CanEncode(script, f, vs[k])
      case Call(_) => false
  }

  predicate CanEncodeAll(script: Script, fields: seq<Field>, slots: seq<Slot>)
    decreases fields, 2
  {
    |slots| == |fields| && forall i | 0 <= i < |fields| :: CanEncodeSlot(script, fields[i], slots[i])
  }

  lemma {:induction false} StringLength(b: seq<byte>, n: nat)
    requires n <= |b| && (forall i | 0 <= i < n :: b[i] != 0) && (n < |b| ==> b[n] == 0)
    ensures StrLen(b) == n
    decreases n
  {
    if n > 0 {
      StringLength(b[1..], n - 1);
    }
  }

  lemma CStringExactly(size: nat, b: seq<byte>)
    ensures IsCString(size, b) <==> CString(size, b)
  {
    hide StrLen;
    if CString(size, b) {
      StringLength(b, if b != [] && b[|b| - 1] == 0 then |b| - 1 else |b|);
    }
  }

  lemma ScalarEncodes(p: Pass, f: Field, v: Value)
    requires f.ltype != Submessage
    ensures EncScalar(f, v).Some? <==> CanEncode(p.script, f, v)
  {
    hide EncVarint, EncFixed, EncString, StrLen, IsCString, CString, Half, Pow2;
    if ValidSize(f.dataSize) {
      HalfIsPower(f.dataSize);
    }
    if v.Raw? {
      CStringExactly(f.dataSize, v.b);
    }
  }

  lemma ValueEncodes(p: Pass, f: Field, v: Value)
    requires StableSizes(p.script)
    ensures EncValue(p, f, v).Some? <==> CanEncode(p.script, f, v)
    decreases f, 0, 0
  {
    hide StableSizes, Enc, CanEncodeAll;
    if f.ltype != Submessage {
      ScalarEncodes(p, f, v);
    } else if v.Msg? {
      PassesAgree(p, f, v.m);
      EncodesExactly(SizingOf(p), f.sub, v.m);
    }
  }

  lemma {:induction false} PackedEncodes(p: Pass, f: Field, vs: seq<Value>)
    requires f.ltype != Submessage
    ensures EncPacked(f, vs).Some? <==> forall k | 0 <= k < |vs| :: CanEncode(p.script, f, vs[k])
    decreases |vs|
  {
    hide CanEncode, EncScalar;
    if vs != [] {
      ScalarEncodes(p, f, vs[0]);
      PackedEncodes(p, f, vs[1..]);
    }
  }

  lemma ItemsEncode(p: Pass, f: Field, vs: seq<Value>)
    requires StableSizes(p.script)
    ensures EncItems(p, f, vs).Some? <==> forall k | 0 <= k < |vs| :: CanEncode(p.script, f, vs[k])
    decreases f, 1, |vs|
  {
    hide StableSizes, CanEncode, EncValue, EncTag;
    if vs != [] {
      ValueEncodes(p, f, vs[0]);
      ItemsEncode(p, f, vs[1..]);
    }
  }

  lemma SlotEncodes(p: Pass, f: Field, slot: Slot)
    requires StableSizes(p.script)
    ensures EncSlot(p, f, slot).Some? <==> CanEncodeSlot(p.script, f, slot)
    decreases f, 2, 0
  {
    hide StableSizes, CanEncode, EncValue, EncTag, EncString, EncItems, EncPacked;
    match slot
    case Req(v) => ValueEncodes(p, f, v);
    case Opt(has, v) => ValueEncodes(p, f, v);
    case Rep(vs) =>
      ItemsEncode(p, f, vs);
      if Packable(f) {
        PackedEncodes(p, f, vs);
      }
    case Call(fn) =>
      if fn.Encoder? {
        AnyPass(p, fn.id);
      }
  }

  lemma AnyPass(p: Pass, id: nat)
    requires StableSizes(p.script)
    ensures p.script(id, p.path).ok == p.script(id, []).ok
  {
  }

  /**
    * With callbacks of stable size a message encodes if and only if every value in it fits its field, its arrays have
    * room for what they hold, and its callbacks agree to write.
    */
  lemma EncodesExactly(p: Pass, fields: seq<Field>, slots: seq<Slot>)
    requires StableSizes(p.script)
    ensures Enc(p, fields, slots).Some? <==> CanEncodeAll(p.script, fields, slots)
    decreases fields, 3, 0
  {
    hide StableSizes, EncSlot, CanEncodeSlot;
    if |fields| == |slots| && fields != [] {
      SlotEncodes(p, fields[0], slots[0]);
      EncodesExactly(p, fields[1..], slots[1..]);
      FirstAndOthers(p.script, fields, slots);
    }
  }

  lemma FirstAndOthers(script: Script, fields: seq<Field>, slots: seq<Slot>)
    requires |fields| == |slots| && fields != []
    ensures CanEncodeAll(script, fields, slots)
       <==> CanEncodeSlot(script, fields[0], slots[0]) && CanEncodeAll(script, fields[1..], slots[1..])
  {
    hide CanEncodeSlot;
    if CanEncodeSlot(script, fields[0], slots[0]) && CanEncodeAll(script, fields[1..], slots[1..]) {
      forall i | 0 <= i < |fields| ensures CanEncodeSlot(script, fields[i], slots[i]) {
        if i > 0 {
          assert CanEncodeSlot(script, fields[1..][i - 1], slots[1..][i - 1]);
        }
      }
    }
  }
}
