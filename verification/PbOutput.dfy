/** The output stream and the encoder that writes to it: submessages are sized in one pass and written in another. */
module PbOutput {
  import opened Bytes
  import opened PbWire
  import opened PbTable
  import opened PbEncode
  import opened PbPasses

  /** `errmsg`: nothing, "stream full", "submsg size changed", or another message. */
  datatype Error = NoError | StreamFull | SizeChanged | OtherError

  /** What can be seen of a stream: how much it may take, how much it took, the bytes it stored, and its error. */
  datatype OState = OState(sizing: bool, maxSize: nat, written: nat, contents: seq<byte>, error: Error)

  predicate HasRoom(s: OState, n: nat) { s.sizing || s.written + n <= s.maxSize }

  function After(s: OState, e: seq<byte>): OState {
    s.(written := s.written + |e|, contents := if s.sizing then s.contents else s.contents + e)
  }

  lemma AfterBoth(s: OState, a: seq<byte>, b: seq<byte>)
    ensures After(After(s, a), b) == After(s, a + b)
    ensures HasRoom(s, |a|) && HasRoom(After(s, a), |b|) <==> HasRoom(s, |a + b|)
  {
    assert s.contents + a + b == s.contents + (a + b);
  }

  /**
    * The outcome of writing `e` (or failing to encode): all of it, or the error "stream full" when it does not fit. A
    * stream that was in error before says nothing by its message.
    */
  predicate Wrote(s: OState, s': OState, ok: bool, e: Option<seq<byte>>) {
    && (ok <==> e.Some? && HasRoom(s, |e.value|))
    && (ok ==> s' == After(s, e.value).(error := s'.error))
    && (s.error == NoError && e.Some? ==> s'.error == if ok then NoError else StreamFull)
    && s'.sizing == s.sizing && s'.maxSize == s.maxSize && s.contents <= s'.contents
    && (!s.sizing ==> |s'.contents| - |s.contents| == s'.written - s.written)
  }

  lemma WroteBoth(s: OState, s': OState, s'': OState, a: Option<seq<byte>>, ok: bool, b: Option<seq<byte>>)
    requires Wrote(s, s', true, a) && Wrote(s', s'', ok, b)
    ensures Wrote(s, s'', ok, Cat(a, b))
  {
    if b.Some? {
      AfterBoth(s, a.value, b.value);
    }
  }

  lemma FailedFirst(s: OState, s': OState, a: Option<seq<byte>>, b: Option<seq<byte>>)
    requires Wrote(s, s', false, a)
    ensures Wrote(s, s', false, Cat(a, b))
  {
  }

  lemma WroteLoop(s: OState, s': OState, s'': OState, done: seq<byte>, ok: bool, x: Option<seq<byte>>,
                  rest: Option<seq<byte>>)
    requires Wrote(s, s', true, Some(done)) && Wrote(s', s'', ok, x)
    ensures !ok ==> Wrote(s, s'', false, Cat(Some(done), Cat(x, rest)))
    ensures ok ==> Wrote(s, s'', true, Some(done + x.value))
    ensures ok ==> Cat(Some(done), Cat(x, rest)) == Cat(Some(done + x.value), rest)
  {
    if x.Some? {
      AfterBoth(s, done, x.value);
      if rest.Some? {
        assert done + (x.value + rest.value) == done + x.value + rest.value;
      }
    }
  }

  // ----- what a C struct can hold: counts and sizes in `pb_size_t`, lengths in 64 bits, numbers in their types

  /** The value can be encoded in the pass `p`, and in every pass over it that this one takes. */
  predicate Holds(p: Pass, f: Field, v: Value)
    decreases f, 0
  {
    match f.ltype
    case Varint => v.Int? && (ValidSize(f.dataSize) ==> -Half(f.dataSize) <= v.n < Half(f.dataSize))
    case UVarint => v.Int? && (ValidSize(f.dataSize) ==> 0 <= v.n < 2 * Half(f.dataSize))
    case SVarint => v.Int? && (ValidSize(f.dataSize) ==> -Half(f.dataSize) <= v.n < Half(f.dataSize))
    case Fixed32 => v.Int? && 0 <= v.n < TWO_32
    case Fixed64 => v.Int? && 0 <= v.n < TWO_64
    case BytesField => v.Raw? && |v.b| <= SIZE_MAX
    case StringField => v.Raw? && |v.b| <= SIZE_MAX && IsCString(f.dataSize, v.b)
    case FixedBytes => v.Raw? && |v.b| <= SIZE_MAX && |v.b| == f.dataSize
    case Submessage =>
      && v.Msg? && HoldsAll(SizingOf(p), f.sub, v.m) && (!Counting(p) ==> HoldsAll(WritingOf(p), f.sub, v.m))
      && Measurable(Enc(SizingOf(p), f.sub, v.m))
  }

  /** The length fits `size_t`. */
  predicate Measurable(e: Option<seq<byte>>) { e.Some? ==> |e.value| < TWO_64 }

  predicate Shorter(e: Option<seq<byte>>, size: nat) { e.Some? && |e.value| < size }
  predicate OfSize(e: Option<seq<byte>>, size: nat) { e.Some? && |e.value| == size }
  predicate Longer(e: Option<seq<byte>>, size: nat) { e.Some? && |e.value| > size }

  predicate HoldsEach(p: Pass, f: Field, vs: seq<Value>)
    decreases f, 1
  {
    forall k | 0 <= k < |vs| :: Holds(p, f, vs[k])
  }

  predicate HoldsSlot(p: Pass, f: Field, slot: Slot)
    decreases f, 2
  {
    f.tag <= SIZE_MAX &&
    if f.atype == ByCallback then slot.Call? && !slot.fn.Decoder?
    else
      match slot
      case Req(v) => f.htype == Required && Holds(p, f, v)
      case Opt(_, v) => f.htype == Optional && Holds(p, f, v)
      case Rep(vs) => f.htype == Repeated && |vs| <= SIZE_MAX && HoldsEach(p, f, vs)
      case Call(_) => false
  }

  predicate HoldsAll(p: Pass, fields: seq<Field>, slots: seq<Slot>)
    decreases fields, 3
  {
    |fields| == |slots| && forall i | 0 <= i < |fields| :: HoldsSlot(p, fields[i], slots[i])
  }

  lemma {:induction false} VarintLength(v: nat, k: nat)
    requires v < Room(k) && k < 10
    ensures |EncVarint(v)| <= 10 - k
    decreases v
  {
    if v >= 128 {
      VarintLength(v / 128, k + 1);
    }
  }

  lemma {:induction false} PackedLength(f: Field, vs: seq<Value>)
    requires Packable(f) && EncPacked(f, vs).Some?
    ensures |EncPacked(f, vs).value| <= 10 * |vs|
    decreases |vs|
  {
    if vs != [] {
      hide EncVarint, ZigZag;
      RoomIs64Bits();
      PackedLength(f, vs[1..]);
      if f.ltype == Varint {
        VarintLength(U64(vs[0].n), 0);
      } else if f.ltype == UVarint {
        VarintLength(vs[0].n, 0);
      } else if f.ltype == SVarint {
        VarintLength(ZigZag(vs[0].n), 0);
      }
    }
  }

  lemma PackedStep(f: Field, vs: seq<Value>, i: nat)
    requires i < |vs|
    ensures EncPacked(f, vs[i..]) == Cat(EncScalar(f, vs[i]), EncPacked(f, vs[i + 1..]))
  {
    assert vs[i..][1..] == vs[i + 1..];
  }

  lemma ItemsStep(p: Pass, f: Field, vs: seq<Value>, i: nat)
    requires i < |vs|
    ensures EncItems(p, f, vs[i..]) == Cat(EncTagged(p, f, vs[i]), EncItems(p, f, vs[i + 1..]))
  {
    assert vs[i..][1..] == vs[i + 1..];
  }

  /** The loop of `pb_encode_varint` has written `done` and has `v` left to write. */
  predicate VarintLoop(value: nat, done: seq<byte>, v: nat) {
    if v > 0 then EncVarint(value) == done + EncVarint(v)
    else done != [] && done[|done| - 1] >= 128 && EncVarint(value) == done[|done| - 1 := done[|done| - 1] - 128]
  }

  lemma VarintLoopStep(value: nat, done: seq<byte>, v: nat)
    requires VarintLoop(value, done, v) && v > 0
    ensures VarintLoop(value, done + [v % 128 + 128], v / 128)
  {
    if v / 128 > 0 {
      assert done + [v % 128 + 128] + EncVarint(v / 128) == done + EncVarint(v);
    } else {
      assert (done + [v % 128 + 128])[|done| := v] == done + [v];
    }
  }

  class OStream {
    const buf: array?<byte>      // null for a stream that only counts
    const maxSize: nat
    var pos: nat                 // `state`: where the next byte goes
    var bytesWritten: nat
    var error: Error             // `errmsg`

    ghost function Memory(): set<object> { if buf == null then {} else {buf} }

    ghost predicate Valid()
      reads this, Memory()
    {
      if buf == null then pos == 0
      else pos <= buf.Length && bytesWritten <= maxSize && pos + (maxSize - bytesWritten) <= buf.Length
    }

    ghost function State(): OState
      requires Valid()
      reads this, Memory()
    {
      OState(buf == null, maxSize, bytesWritten, if buf == null then [] else buf[..pos], error)
    }

    constructor Sizing()
      ensures Valid() && buf == null && State() == OState(true, 0, 0, [], NoError)
    {
      buf, maxSize, pos, bytesWritten, error := null, 0, 0, 0, NoError;
    }

    /** A stream onto the `size` bytes of `buf` from `pos` on. */
    constructor (buf: array<byte>, pos: nat, size: nat)
      requires pos + size <= buf.Length
      ensures Valid() && this.buf == buf && this.pos == pos && State() == OState(false, size, 0, buf[..pos], NoError)
    {
      this.buf, this.maxSize, this.pos, bytesWritten, error := buf, size, pos, 0, NoError;
    }

    /** `PB_SET_ERROR`: the first message stays. */
    method Fail(e: Error)
      modifies `error
      ensures error == if old(error) == NoError then e else old(error)
    {
      if error == NoError {
        error := e;
      }
    }

    /** `buf_write`. */
    method BufWrite(b: seq<byte>)
      requires buf != null && pos + |b| <= buf.Length
      modifies `pos, buf
      ensures pos == old(pos) + |b| && buf[..pos] == old(buf[..pos]) + b
    {
      var dest := pos;
      pos := pos + |b|;
      for i := 0 to |b|
        invariant pos == dest + |b|
        invariant buf[..dest] == old(buf[..pos]) && buf[dest..dest + i] == b[..i]
      {
        buf[dest + i] := b[i];
      }
      assert buf[..pos] == buf[..dest] + buf[dest..pos];
    }

    /** `pb_write`; a counting stream takes anything. */
    method Write(b: seq<byte>) returns (ok: bool)
      requires Valid()
      modifies this, Memory()
      ensures Valid() && Wrote(old(State()), State(), ok, Some(b))
    {
      if buf != null {
        if bytesWritten + |b| > maxSize {
          Fail(StreamFull);
          return false;
        }
        BufWrite(b);
      }
      bytesWritten := bytesWritten + |b|;
      ok := true;
    }

    /** `pb_write` without data, on a counting stream: it counts like any `n` bytes. */
    method Count(n: nat, ghost b: seq<byte>)
      requires Valid() && buf == null && |b| == n
      modifies this
      ensures Valid() && Wrote(old(State()), State(), true, Some(b))
    {
      bytesWritten := bytesWritten + n;
    }

    /** `pb_encode_varint`. */
    method EncodeVarint(value: nat) returns (ok: bool)
      requires Valid() && value < TWO_64
      modifies this, Memory()
      ensures Valid() && Wrote(old(State()), State(), ok, Some(EncVarint(value)))
    {
      hide EncVarint;
      if value <= 0x7F {
        SmallVarint(value);
        ok := Write([value]);
      } else {
        var buffer, i := VarintBuffer(value);
        ok := Write(buffer[..i]);
      }
    }

    method EncodeTag(tag: nat, wire: nat) returns (ok: bool)
      requires Valid() && tag <= SIZE_MAX && wire < 8
      modifies this, Memory()
      ensures Valid() && Wrote(old(State()), State(), ok, Some(EncTag(tag, wire)))
    {
      ok := EncodeVarint(8 * tag + wire);
    }

    method EncodeStringBytes(b: seq<byte>) returns (ok: bool)
      requires Valid() && |b| < TWO_64
      modifies this, Memory()
      ensures Valid() && Wrote(old(State()), State(), ok, Some(EncString(b)))
    {
      hide EncVarint;
      ok := EncodeVarint(|b|);
      ghost var s' := State();
      if !ok {
        return;
      }
      ok := Write(b);
      WroteBoth(old(State()), s', State(), Some(EncVarint(|b|)), ok, Some(b));
    }

    method EncodeFixed32(n: nat) returns (ok: bool)
      requires Valid() && n < TWO_32
      modifies this, Memory()
      ensures Valid() && Wrote(old(State()), State(), ok, Some(EncFixed(n, 4)))
    {
      hide EncFixed;
      EncFixed32(n);
      ok := Write([n % 0x100, n / 0x100 % 0x100, n / 0x1_0000 % 0x100, n / 0x100_0000 % 0x100]);
    }

    method EncodeFixed64(n: nat) returns (ok: bool)
      requires Valid() && n < TWO_64
      modifies this, Memory()
      ensures Valid() && Wrote(old(State()), State(), ok, Some(EncFixed(n, 8)))
    {
      hide EncFixed;
      EncFixed64(n);
      ok := Write([n % 0x100, n / 0x100 % 0x100, n / 0x1_0000 % 0x100, n / 0x100_0000 % 0x100,
                   n / 0x1_0000_0000 % 0x100, n / 0x100_0000_0000 % 0x100, n / 0x1_0000_0000_0000 % 0x100,
                   n / 0x100_0000_0000_0000 % 0x100]);
    }

    /** The encoders of single values. */
    method EncodeScalar(f: Field, v: Value, ghost p: Pass) returns (ok: bool)
      requires Valid() && f.ltype != Submessage && Holds(p, f, v)
      modifies this, Memory()
      ensures Valid() && Wrote(old(State()), State(), ok, EncScalar(f, v))
    {
      hide EncVarint, EncFixed, EncString, StrLen, ZigZag, Half;
      HalfBounds(f.dataSize);
      match f.ltype
      case Varint =>
        if !ValidSize(f.dataSize) {
          Fail(OtherError);
          return false;
        }
        ok := EncodeVarint(U64(v.n));
      case UVarint =>
        if !ValidSize(f.dataSize) {
          Fail(OtherError);
          return false;
        }
        ok := EncodeVarint(v.n);
      case SVarint =>
        if !ValidSize(f.dataSize) {
          Fail(OtherError);
          return false;
        }
        ok := EncodeVarint(ZigZag(v.n));
      case Fixed32 =>
        ok := EncodeFixed32(v.n);
      case Fixed64 =>
        ok := EncodeFixed64(v.n);
      case BytesField =>
        if |v.b| + HEADER > f.dataSize {
          Fail(OtherError);
          return false;
        }
        ok := EncodeStringBytes(v.b);
      case StringField =>
        var size := StringSize(f.dataSize, v.b);
        ok := EncodeStringBytes(v.b[..size]);
      case FixedBytes =>
        ok := EncodeStringBytes(v.b);
    }

    /**
      * `pb_encode_submessage`: the message is sized on a counting stream, then written to a stream of exactly that
      * size. `changed` tells whether the check for a changed size was reached and failed. A second pass that ends
      * early is reported as "submsg size changed", one that wants more room as "stream full", and when both passes
      * write as much neither is.
      */
    method EncodeSubmessage(p: Pass, fields: seq<Field>, slots: seq<Slot>) returns (ok: bool, changed: bool)
      requires Valid() && (Counting(p) <==> buf == null)
      requires HoldsAll(SizingOf(p), fields, slots) && (!Counting(p) ==> HoldsAll(WritingOf(p), fields, slots))
      requires Measurable(Enc(SizingOf(p), fields, slots))
      modifies this, Memory()
      ensures var first := Enc(SizingOf(p), fields, slots);
              var second := if Counting(p) then first else Enc(WritingOf(p), fields, slots);
              && Valid() && Wrote(old(State()), State(), ok, SubmessageOf(first, second))
              && (changed ==> first.Some? && !SameSize(first, second))
              && (old(error) == NoError && first.Some? && HasRoom(old(State()), |EncString(first.value)|) ==>
                    && (Shorter(second, |first.value|) ==> changed && error == SizeChanged)
                    && (Longer(second, |first.value|) ==> error == StreamFull))
      decreases fields, 6, 0
    {
      hide EncVarint, HoldsAll, Enc, Counting, SizingOf, WritingOf;
      changed := false;
      ghost var first := Enc(SizingOf(p), fields, slots);
      ghost var second := if Counting(p) then first else Enc(WritingOf(p), fields, slots);
      SizingCounts(p);
      var substream := new OStream.Sizing();
      ok := substream.Encode(SizingOf(p), fields, slots);
      if !ok {
        error := substream.error;
        return;
      }
      var size := substream.bytesWritten;
      ok := EncodeVarint(size);
      ghost var s' := State();
      if !ok {
        return;
      }
      if buf == null {
        Count(size, first.value);
        WroteBoth(old(State()), s', State(), Some(EncVarint(size)), ok, first);
        return;
      }
      if bytesWritten + size > maxSize {
        Fail(StreamFull);
        return false, false;
      }
      ok, changed := WriteAgain(p, fields, slots, size);
      if ok {
        WroteBoth(old(State()), s', State(), Some(EncVarint(size)), ok, second);
      }
    }

    /** The second pass, to a stream of `size` bytes. */
    method WriteAgain(p: Pass, fields: seq<Field>, slots: seq<Slot>, size: nat) returns (ok: bool, changed: bool)
      requires Valid() && !Counting(p) && buf != null && bytesWritten + size <= maxSize
      requires HoldsAll(WritingOf(p), fields, slots)
      modifies this, buf
      ensures var second := Enc(WritingOf(p), fields, slots);
              && Valid() && Wrote(old(State()), State(), ok, if OfSize(second, size) then second else None)
              && (changed ==> !OfSize(second, size))
              && (Shorter(second, size) ==> changed && error == SizeChanged)
              && (Longer(second, size) ==> error == StreamFull)
      decreases fields, 5, 1
    {
      hide HoldsAll, Enc, Counting, WritingOf;
      WritingStores(p);
      var substream := new OStream(buf, pos, size);
      ok := substream.Encode(WritingOf(p), fields, slots);
      bytesWritten := bytesWritten + substream.bytesWritten;
      pos := substream.pos;
      error := substream.error;
      changed := substream.bytesWritten != size;
      if changed {
        Fail(SizeChanged);
        ok := false;
      }
    }

    method EncodeValue(p: Pass, f: Field, v: Value) returns (ok: bool)
      requires Valid() && (Counting(p) <==> buf == null) && Holds(p, f, v)
      modifies this, Memory()
      ensures Valid() && Wrote(old(State()), State(), ok, EncValue(p, f, v))
      decreases f, 0, 0
    {
      hide EncScalar, Enc, HoldsAll, Counting;
      if f.ltype == Submessage {
        var changed;
        ok, changed := EncodeSubmessage(p, f.sub, v.m);
      } else {
        ok := EncodeScalar(f, v, p);
      }
    }

    method EncodeTagged(p: Pass, f: Field, v: Value) returns (ok: bool)
      requires Valid() && (Counting(p) <==> buf == null) && Holds(p, f, v) && f.tag <= SIZE_MAX
      modifies this, Memory()
      ensures Valid() && Wrote(old(State()), State(), ok, EncTagged(p, f, v))
      decreases f, 1, 0
    {
      hide EncTag, EncValue, Holds, Counting;
      ok := EncodeTag(f.tag, WireNumber(f.ltype));
      ghost var s' := State();
      if ok {
        ok := EncodeValue(p, f, v);
        WroteBoth(old(State()), s', State(), Some(EncTag(f.tag, WireNumber(f.ltype))), ok, EncValue(p, f, v));
      }
    }

    /** One value after the other: the writing loop of a packed array, and its sizing loop on a counting stream. */
    method EncodeScalars(f: Field, vs: seq<Value>, ghost p: Pass) returns (ok: bool)
      requires Valid() && Packable(f) && HoldsEach(p, f, vs)
      modifies this, Memory()
      ensures Valid() && Wrote(old(State()), State(), ok, EncPacked(f, vs))
    {
      hide EncScalar, EncPacked, Holds;
      ghost var done: seq<byte> := [];
      StartLoop(State(), EncPacked(f, vs));
      assert vs[0..] == vs;
      for i := 0 to |vs|
        invariant Valid() && Wrote(old(State()), State(), true, Some(done))
        invariant EncPacked(f, vs) == Cat(Some(done), EncPacked(f, vs[i..]))
      {
        hide Wrote;
        PackedStep(f, vs, i);
        ghost var s' := State();
        ok := EncodeScalar(f, vs[i], p);
        WroteLoop(old(State()), s', State(), done, ok, EncScalar(f, vs[i]), EncPacked(f, vs[i + 1..]));
        if !ok {
          return;
        }
        done := done + EncScalar(f, vs[i]).value;
      }
      PackedEnd(f, vs, done);
      ok := true;
    }

    /** The sizing part of `encode_array`. */
    method PackedSize(f: Field, vs: seq<Value>, ghost p: Pass) returns (ok: bool, size: nat)
      requires Packable(f) && HoldsEach(p, f, vs)
      ensures ok <==> EncPacked(f, vs).Some?
      ensures ok ==> size == |EncPacked(f, vs).value|
    {
      hide EncPacked, EncScalar;
      if f.ltype == Fixed32 {
        PackedFixedEncodes(p, f, vs);
        PackedFixedSize(f, vs);
        return true, 4 * |vs|;
      }
      if f.ltype == Fixed64 {
        PackedFixedEncodes(p, f, vs);
        PackedFixedSize(f, vs);
        return true, 8 * |vs|;
      }
      var sizestream := new OStream.Sizing();
      ok := sizestream.EncodeScalars(f, vs, p);
      size := sizestream.bytesWritten;
    }

    /** The packed case of `encode_array`. */
    method EncodePacked(f: Field, vs: seq<Value>, ghost p: Pass) returns (ok: bool)
      requires Valid() && Packable(f) && |vs| <= SIZE_MAX && f.tag <= SIZE_MAX && HoldsEach(p, f, vs)
      modifies this, Memory()
      ensures Valid() && Wrote(old(State()), State(), ok, EncPackedArray(f, vs))
    {
      hide EncPacked, EncTag, EncVarint, Holds;
      ghost var tag, e := Some(EncTag(f.tag, 2)), EncPacked(f, vs);
      ok := EncodeTag(f.tag, 2);
      ghost var s1 := State();
      if !ok {
        return;
      }
      var size;
      ok, size := PackedSize(f, vs, p);
      if !ok {
        return;
      }
      PackedLength(f, vs);
      ghost var length := Some(EncVarint(size));
      ok := EncodeVarint(size);
      ghost var s2 := State();
      WroteBoth(old(State()), s1, s2, tag, ok, length);
      CatAssoc(tag, length, e);
      if !ok {
        FailedFirst(old(State()), s2, Cat(tag, length), e);
        return;
      }
      if buf == null {
        Count(size, e.value);
      } else {
        ok := EncodeScalars(f, vs, p);
      }
      WroteBoth(old(State()), s2, State(), Cat(tag, length), ok, e);
    }

    method EncodeItems(p: Pass, f: Field, vs: seq<Value>) returns (ok: bool)
      requires Valid() && (Counting(p) <==> buf == null) && f.tag <= SIZE_MAX && HoldsEach(p, f, vs)
      modifies this, Memory()
      ensures Valid() && Wrote(old(State()), State(), ok, EncItems(p, f, vs))
      decreases f, 2, 0
    {
      hide EncTagged, EncItems, Holds;
      ghost var done: seq<byte> := [];
      StartLoop(State(), EncItems(p, f, vs));
      assert vs[0..] == vs;
      for i := 0 to |vs|
        invariant Valid() && Wrote(old(State()), State(), true, Some(done))
        invariant EncItems(p, f, vs) == Cat(Some(done), EncItems(p, f, vs[i..]))
      {
        hide Wrote;
        ItemsStep(p, f, vs, i);
        ghost var s' := State();
        ok := EncodeTagged(p, f, vs[i]);
        WroteLoop(old(State()), s', State(), done, ok, EncTagged(p, f, vs[i]), EncItems(p, f, vs[i + 1..]));
        if !ok {
          return;
        }
        done := done + EncTagged(p, f, vs[i]).value;
      }
      ItemsEnd(p, f, vs, done);
      ok := true;
    }

    /** `encode_array`. */
    method EncodeArray(p: Pass, f: Field, vs: seq<Value>) returns (ok: bool)
      requires Valid() && (Counting(p) <==> buf == null) && |vs| <= SIZE_MAX && f.tag <= SIZE_MAX && HoldsEach(p, f, vs)
      modifies this, Memory()
      ensures Valid() && Wrote(old(State()), State(), ok, EncArray(p, f, vs))
      decreases f, 3, 0
    {
      hide EncTag, EncPacked, EncItems, Holds;
      if |vs| == 0 {
        StartLoop(State(), None);
        return true;
      }
      if |vs| > f.arraySize {
        Fail(OtherError);
        return false;
      }
      if Packable(f) {
        ok := EncodePacked(f, vs, p);
      } else {
        ok := EncodeItems(p, f, vs);
      }
    }

    /** `encode_string` of the speech client: what it writes does not depend on the pass. */
    method EncodeText(f: Field, content: seq<byte>) returns (ok: bool)
      requires Valid() && f.tag <= SIZE_MAX && |content| < TWO_64
      modifies this, Memory()
      ensures Valid() && Wrote(old(State()), State(), ok, Some(TextField(f, content)))
    {
      hide EncTag, EncString;
      ok := EncodeTag(f.tag, WireNumber(f.ltype));
      ghost var s' := State();
      if !ok {
        return;
      }
      ok := EncodeStringBytes(content);
      WroteBoth(old(State()), s', State(), Some(EncTag(f.tag, WireNumber(f.ltype))), ok, Some(EncString(content)));
    }

    /** `encode_callback_field`. */
    method EncodeCallbackField(p: Pass, fn: Callback) returns (ok: bool)
      requires Valid() && !fn.Decoder?
      modifies this, Memory()
      ensures Valid() && Wrote(old(State()), State(), ok, EncCallback(p, fn))
    {
      if fn.Unset? {
        StartLoop(State(), None);
        return true;
      }
      var act := p.script(fn.id, p.path);
      ok := Write(act.bytes);
      if ok {
        ok := act.ok;
      }
      if !ok {
        Fail(OtherError);
      }
    }

    /** `encode_field`, with `encode_basic_field`. */
    method EncodeField(p: Pass, f: Field, slot: Slot) returns (ok: bool)
      requires Valid() && (Counting(p) <==> buf == null) && HoldsSlot(p, f, slot)
      modifies this, Memory()
      ensures Valid() && Wrote(old(State()), State(), ok, EncSlot(p, f, slot))
      decreases f, 4, 0
    {
      hide EncTagged, EncArray, EncCallback, Holds, HoldsEach, Counting, Wrote;
      match slot
      case Req(v) =>
        ok := EncodeTagged(p, f, v);
      case Opt(has, v) =>
        ok := true;
        if has {
          ok := EncodeTagged(p, f, v);
        } else {
          StartLoop(State(), None);
        }
      case Rep(vs) =>
        ok := EncodeArray(p, f, vs);
      case Call(fn) =>
        ok := EncodeCallbackField(p, fn);
    }

    /** `pb_encode`. */
    method Encode(p: Pass, fields: seq<Field>, slots: seq<Slot>) returns (ok: bool)
      requires Valid() && (Counting(p) <==> buf == null) && HoldsAll(p, fields, slots)
      modifies this, Memory()
      ensures Valid() && Wrote(old(State()), State(), ok, Enc(p, fields, slots))
      decreases fields, 5, 0
    {
      hide EncSlot, Enc, HoldsSlot;
      var iter := new FieldIter(fields);
      var more := iter.Begin();
      ghost var done: seq<byte> := [];
      ghost var i := 0;
      StartLoop(State(), Enc(p, fields, slots));
      assert fields[0..] == fields && slots[0..] == slots;
      while more
        invariant iter.Valid() && iter.fields == fields && fresh(iter)
        invariant i <= |fields| && (more <==> i < |fields|) && (more ==> iter.pos == i)
        invariant Valid() && Wrote(old(State()), State(), true, Some(done))
        invariant Enc(p, fields, slots) == Cat(Some(done), Enc(p, fields[i..], slots[i..]))
        decreases |fields| - i
      {
        hide Wrote;
        EncPrefix(p, fields, slots, i);
        ghost var s' := State();
        ok := EncodeField(p, fields[iter.pos], slots[iter.pos]);
        WroteLoop(old(State()), s', State(), done, ok, EncSlot(p, fields[i], slots[i]),
                  Enc(p, fields[i + 1..], slots[i + 1..]));
        if !ok {
          return;
        }
        done := done + EncSlot(p, fields[i], slots[i]).value;
        more := iter.Next();
        i := i + 1;
      }
      MessageEnd(p, fields, slots, done);
      ok := true;
    }

    /**
      * `pb_get_encoded_size`: one pass on a counting stream, and with callbacks of stable size exactly the number of
      * bytes that encoding writes.
      */
    static method GetEncodedSize(script: Script, fields: seq<Field>, slots: seq<Slot>) returns (ok: bool, size: nat)
      requires HoldsAll(Pass(script, [false]), fields, slots)
      ensures ok <==> Enc(Pass(script, [false]), fields, slots).Some?
      ensures ok ==> size == |Enc(Pass(script, [false]), fields, slots).value|
      ensures StableSizes(script) ==> (ok <==> Enc(Pass(script, []), fields, slots).Some?)
      ensures StableSizes(script) && ok ==> size == |Enc(Pass(script, []), fields, slots).value|
    {
      hide Enc, HoldsAll, StableSizes;
      var stream := new OStream.Sizing();
      ok := stream.Encode(Pass(script, [false]), fields, slots);
      size := stream.bytesWritten;
      if StableSizes(script) {
        MessageSize(Pass(script, [false]), Pass(script, []), fields, slots);
      }
    }
  }

  lemma SizingCounts(p: Pass)
    ensures Counting(SizingOf(p))
  {
  }

  lemma WritingStores(p: Pass)
    ensures !Counting(WritingOf(p))
  {
  }

  lemma StartLoop(s: OState, e: Option<seq<byte>>)
    requires s.sizing || s.written <= s.maxSize
    ensures Wrote(s, s, true, Some([])) && Cat(Some([]), e) == e
  {
    assert s.contents + [] == s.contents;
    if e.Some? {
      assert [] + e.value == e.value;
    }
  }

  lemma CatAssoc(a: Option<seq<byte>>, b: Option<seq<byte>>, c: Option<seq<byte>>)
    ensures Cat(Cat(a, b), c) == Cat(a, Cat(b, c))
  {
    if a.Some? && b.Some? && c.Some? {
      assert a.value + b.value + c.value == a.value + (b.value + c.value);
    }
  }

  lemma PackedEnd(f: Field, vs: seq<Value>, done: seq<byte>)
    ensures Cat(Some(done), EncPacked(f, vs[|vs|..])) == Some(done)
  {
    assert done + [] == done;
  }

  lemma ItemsEnd(p: Pass, f: Field, vs: seq<Value>, done: seq<byte>)
    ensures Cat(Some(done), EncItems(p, f, vs[|vs|..])) == Some(done)
  {
    assert done + [] == done;
  }

  lemma MessageEnd(p: Pass, fields: seq<Field>, slots: seq<Slot>, done: seq<byte>)
    requires |fields| == |slots|
    ensures Cat(Some(done), Enc(p, fields[|fields|..], slots[|slots|..])) == Some(done)
  {
    assert done + [] == done;
  }

  lemma {:induction false} PackedFixedEncodes(p: Pass, f: Field, vs: seq<Value>)
    requires f.ltype in {Fixed32, Fixed64} && HoldsEach(p, f, vs)
    ensures EncPacked(f, vs).Some?
    decreases |vs|
  {
    if vs != [] {
      assert Holds(p, f, vs[0]);
      PackedFixedEncodes(p, f, vs[1..]);
    }
  }

  lemma SmallVarint(value: nat)
    requires value < 128
    ensures EncVarint(value) == [value]
  {
  }

  /** The loop of `pb_encode_varint`: ten bytes are always enough. */
  method VarintBuffer(value: nat) returns (buffer: array<byte>, i: nat)
    requires 0x7F < value < TWO_64
    ensures fresh(buffer) && i <= buffer.Length && buffer[..i] == EncVarint(value)
  {
    hide EncVarint;
    buffer := new byte[10];
    i := 0;
    var v := value;
    RoomIs64Bits();
    EncVarintNotEmpty(value);
    while v != 0
      invariant i <= 10 && (i == 10 ==> v == 0) && (i < 10 ==> 0 <= v < Room(i))
      invariant 0 <= v && (v > 0 || i > 0)
      invariant VarintLoop(value, buffer[..i], v)
      decreases v
    {
      VarintLoopStep(value, buffer[..i], v);
      ghost var done := buffer[..i];
      buffer[i] := v % 128 + 128;
      v := v / 128;
      i := i + 1;
      assert buffer[..i] == done + [buffer[i - 1]];
    }
    ghost var done := buffer[..i];
    buffer[i - 1] := buffer[i - 1] - 128;
    assert buffer[..i] == done[i - 1 := done[i - 1] - 128];
  }

  lemma EncVarintNotEmpty(value: nat)
    requires value > 0
    ensures VarintLoop(value, [], value)
  {
    assert [] + EncVarint(value) == EncVarint(value);
  }

  lemma EncFixed32(n: nat)
    ensures EncFixed(n, 4) == [n % 0x100, n / 0x100 % 0x100, n / 0x1_0000 % 0x100, n / 0x100_0000 % 0x100]
  {
    assert n / 0x100 / 0x100 == n / 0x1_0000;
    assert n / 0x1_0000 / 0x100 == n / 0x100_0000;
    assert EncFixed(n / 0x1_0000, 2) == [n / 0x1_0000 % 0x100, n / 0x100_0000 % 0x100];
    assert EncFixed(n / 0x100, 3) == [n / 0x100 % 0x100] + EncFixed(n / 0x1_0000, 2);
    assert EncFixed(n, 4) == [n % 0x100] + EncFixed(n / 0x100, 3);
  }

  lemma {:induction false} EncFixedSplit(n: nat, width: nat)
    requires width >= 4
    ensures EncFixed(n, width) == EncFixed(n, 4) + EncFixed(n / 0x1_0000_0000, width - 4)
  {
    EncFixed32(n);
    assert n / 0x100_0000 / 0x100 == n / 0x1_0000_0000;
    assert n / 0x100 / 0x100 == n / 0x1_0000;
    assert n / 0x1_0000 / 0x100 == n / 0x100_0000;
    assert EncFixed(n / 0x100_0000, width - 3) == [n / 0x100_0000 % 0x100] + EncFixed(n / 0x1_0000_0000, width - 4);
    assert EncFixed(n / 0x1_0000, width - 2) == [n / 0x1_0000 % 0x100] + EncFixed(n / 0x100_0000, width - 3);
    assert EncFixed(n / 0x100, width - 1) == [n / 0x100 % 0x100] + EncFixed(n / 0x1_0000, width - 2);
  }

  lemma EncFixed64(n: nat)
    ensures EncFixed(n, 8) == [n % 0x100, n / 0x100 % 0x100, n / 0x1_0000 % 0x100, n / 0x100_0000 % 0x100,
                               n / 0x1_0000_0000 % 0x100, n / 0x100_0000_0000 % 0x100, n / 0x1_0000_0000_0000 % 0x100,
                               n / 0x100_0000_0000_0000 % 0x100]
  {
    hide EncFixed;
    EncFixedSplit(n, 8);
    EncFixed32(n);
    EncFixed32(n / 0x1_0000_0000);
    assert n / 0x1_0000_0000 / 0x100 == n / 0x100_0000_0000;
    assert n / 0x1_0000_0000 / 0x1_0000 == n / 0x1_0000_0000_0000;
    assert n / 0x1_0000_0000 / 0x100_0000 == n / 0x100_0000_0000_0000;
  }

  /** The loop of `pb_enc_string`. */
  method StringSize(maxSize: nat, b: seq<byte>) returns (size: nat)
    requires IsCString(maxSize, b)
    ensures size == StrLen(b)
  {
    size := 0;
    while size < maxSize && b[size] != 0
      invariant size <= StrLen(b)
    {
      size := size + 1;
    }
  }
}
