/** The decoder as it runs: on a stream, with the circular field iterator and the bit set of required fields. */
module PbDecoder {
  import opened Bytes
  import opened PbWire
  import opened PbTable
  import opened PbEncode
  import opened PbDecode
  import opened PbInput
  import opened PbSeen

  /** Reading from `stream` did what the function that yields `r` says. */
  twostate predicate Did<T>(stream: IStream, r: Read<T>, ok: bool, v: T)
    reads stream
  {
    && stream.Valid() && stream.End() <= old(stream.End())
    && ok == r.Got?
    && (ok ==> r == Got(v, stream.Rest()) && stream.End() == old(stream.End()))
  }

  method DecodeInt(stream: IStream, f: Field) returns (ok: bool, v: Value)
    requires stream.Valid() && f.ltype in {Varint, UVarint, SVarint}
    modifies stream
    ensures Did(stream, ReadInt(f, old(stream.Rest())), ok, v)
  {
    hide ReadVarint, Cast, Half;
    v := Int(0);
    ReadVarintFits(stream.Rest());
    HalfBounds(f.dataSize);
    var d := f.dataSize;
    if f.ltype == SVarint {
      var n;
      ok, n := stream.DecodeSVarint();
      if ok {
        ZigZagRoundTrip(n, 0);
        ok := ValidSize(d) && Cast(n, d) == n;
        v := Int(n);
      }
    } else {
      var x;
      ok, x := stream.DecodeVarint();
      if ok {
        if f.ltype == Varint {
          var svalue := if d == 8 then S64(x) else Cast(x, 4);
          ok := ValidSize(d) && Cast(svalue, d) == svalue;
          v := Int(svalue);
        } else {
          ok := ValidSize(d) && x % (2 * Half(d)) == x;
          v := Int(x);
        }
      }
    }
  }

  method DecodeFixed(stream: IStream, width: nat) returns (ok: bool, v: Value)
    requires stream.Valid()
    modifies stream
    ensures Did(stream, ReadFixed(old(stream.Rest()), width), ok, v)
  {
    var bytes;
    ok, bytes := stream.Read(width);
    v := Int(FromFixed(bytes));
  }

  method DecodeBlob(stream: IStream, f: Field) returns (ok: bool, v: Value)
    requires stream.Valid() && f.ltype in {BytesField, StringField, FixedBytes}
    modifies stream
    ensures Did(stream, ReadBlob(f, old(stream.Rest())), ok, v)
  {
    hide ReadLength, StrLen;
    v := Raw([]);
    var size, b;
    ok, size := stream.DecodeLength();
    if !ok {
      return;
    }
    if f.ltype == StringField {
      if size + 1 > f.dataSize {
        return false, v;
      }
      ok, b := stream.Read(size);
      v := Raw(b[..StrLen(b)] + [0]);
    } else {
      if size > SIZE_MAX {
        return false, v;
      }
      if f.ltype == BytesField {
        if size + HEADER > f.dataSize {
          return false, v;
        }
      } else {
        if size == 0 {
          return true, Raw(seq(f.dataSize, _ => 0));
        }
        if size != f.dataSize {
          return false, v;
        }
      }
      ok, b := stream.Read(size);
      v := Raw(b);
    }
  }

  method DecodeScalar(stream: IStream, f: Field) returns (ok: bool, v: Value)
    requires stream.Valid() && f.ltype != Submessage
    modifies stream
    ensures Did(stream, ReadScalar(f, old(stream.Rest())), ok, v)
  {
    hide ReadInt, ReadFixed, ReadBlob;
    match f.ltype
    case Varint => ok, v := DecodeInt(stream, f);
    case UVarint => ok, v := DecodeInt(stream, f);
    case SVarint => ok, v := DecodeInt(stream, f);
    case Fixed32 => ok, v := DecodeFixed(stream, 4);
    case Fixed64 => ok, v := DecodeFixed(stream, 8);
    case BytesField => ok, v := DecodeBlob(stream, f);
    case StringField => ok, v := DecodeBlob(stream, f);
    case FixedBytes => ok, v := DecodeBlob(stream, f);
  }

  /** The loop over the entries of a packed array, on the array's own stream. */
  method DecodePacked(substream: IStream, f: Field, before: seq<Value>) returns (ok: bool, vs: seq<Value>)
    requires substream.Valid() && Packable(f)
    modifies substream
    ensures substream.Valid() && substream.End() <= old(substream.End())
    ensures ok == ReadPacked(f, before, old(substream.Rest())).Some?
    ensures ok ==> ReadPacked(f, before, old(substream.Rest())) == Some(vs) && substream.End() == old(substream.End())
  {
    hide ReadScalar;
    vs := before;
    ok := true;
    while substream.bytesLeft > 0 && |vs| < f.arraySize
      invariant substream.Valid() && substream.End() == old(substream.End())
      invariant ReadPacked(f, before, old(substream.Rest())) == ReadPacked(f, vs, substream.Rest())
      decreases substream.bytesLeft
    {
      var v;
      ScalarShrinks(f, substream.Rest());
      ok, v := DecodeScalar(substream, f);
      if !ok {
        break;
      }
      vs := vs + [v];
    }
    if substream.bytesLeft != 0 {
      ok := false;
    }
  }

  /** A submessage is decoded from its own bytes; the parent then stands right behind them. */
  method DecodeSubmessage(stream: IStream, f: Field, cur: Value) returns (ok: bool, v: Value)
    requires stream.Valid() && WellFormedField(f) && f.atype == Static && f.ltype == Submessage
    modifies stream
    ensures Did(stream, ReadValue(f, cur, old(stream.Rest())), ok, v)
    decreases stream.bytesLeft, 0
  {
    hide ReadString, DecodeNoinit, WellFormed, Defaults, Blank;
    v := Msg([]);
    var substream;
    ok, substream := stream.MakeSubstream();
    if !ok {
      return;
    }
    label Made:
    ghost var body := substream.Rest();
    var m;
    if f.htype == Repeated {
      m := SetToDefaults(f.sub, Blank(f.sub));
      ok, m := DecodeMessage(substream, f.sub, m);
    } else {
      ok, m := DecodeMessage(substream, f.sub, if cur.Msg? then cur.m else []);
    }
    stream.CloseSubstream(substream);
    v := Msg(m);
  }

  method DecodeValue(stream: IStream, f: Field, cur: Value) returns (ok: bool, v: Value)
    requires stream.Valid() && WellFormedField(f) && f.atype == Static
    modifies stream
    ensures Did(stream, ReadValue(f, cur, old(stream.Rest())), ok, v)
    decreases stream.bytesLeft, 1
  {
    hide ReadScalar, WellFormedField;
    if f.ltype == Submessage {
      ok, v := DecodeSubmessage(stream, f, cur);
    } else {
      ok, v := DecodeScalar(stream, f);
    }
  }

  /** The packed case of `decode_static_field`. */
  method DecodePackedField(stream: IStream, f: Field, vs: seq<Value>) returns (ok: bool, slot: Slot)
    requires stream.Valid() && Packable(f)
    modifies stream
    ensures Did(stream, ReadStatic(f, StringWt, Rep(vs), old(stream.Rest())), ok, slot)
  {
    hide ReadString, ReadPacked;
    slot := Rep(vs);
    var substream, vs';
    ok, substream := stream.MakeSubstream();
    if !ok {
      return;
    }
    ok, vs' := DecodePacked(substream, f, vs);
    stream.CloseSubstream(substream);
    slot := Rep(vs');
  }

  /** `decode_static_field`. */
  method DecodeStatic(stream: IStream, f: Field, wt: WireType, slot: Slot) returns (ok: bool, slot': Slot)
    requires stream.Valid() && WellFormedField(f) && f.atype == Static
    modifies stream
    ensures Did(stream, ReadStatic(f, wt, slot, old(stream.Rest())), ok, slot')
    decreases stream.bytesLeft, 2
  {
    hide ReadValue, ReadString, ReadPacked, WellFormedField;
    var value;
    match slot
    case Req(v) =>
      ok, value := DecodeValue(stream, f, v);
      slot' := Req(value);
    case Opt(_, v) =>
      ok, value := DecodeValue(stream, f, v);
      slot' := Opt(true, value);
    case Rep(vs) =>
      if wt == StringWt && Packable(f) {
        ok, slot' := DecodePackedField(stream, f, vs);
      } else if |vs| >= f.arraySize {
        return false, slot;
      } else {
        ok, value := DecodeValue(stream, f, Int(0));
        slot' := Rep(vs + [value]);
      }
    case Call(_) =>
      return false, slot;
  }

  /**
    * `decode_string` of the speech client: takes all there is, and leaves the string as it was when there is nothing.
    */
  method DecodeText(stream: IStream, stored: Option<seq<byte>>) returns (ok: bool, stored': Option<seq<byte>>)
    requires stream.Valid()
    modifies stream
    ensures stream.Valid() && stream.End() == old(stream.End()) && stream.bytesLeft == 0
    ensures ok && stored' == Store(stored, old(stream.Rest()))
  {
    var bytesCount := stream.bytesLeft;
    if bytesCount == 0 {
      return true, stored;
    }
    var buf;
    ok, buf := stream.Read(bytesCount);
    assert buf == old(stream.Rest());
    assert |stream.Rest()| == 0;
    stored' := Some(buf);
  }

  /** The string case of `decode_callback_field`: the function is called until the string is used up. */
  method DecodeStringCallback(stream: IStream, stored: Option<seq<byte>>) returns (ok: bool, slot: Slot)
    requires stream.Valid()
    modifies stream
    ensures Did(stream, ReadCallback(StringWt, Decoder(stored), old(stream.Rest())), ok, slot)
  {
    hide ReadString, Store;
    slot := Call(Decoder(stored));
    var substream;
    ok, substream := stream.MakeSubstream();
    if !ok {
      return;
    }
    ghost var content := substream.Rest();
    var stored', more := stored, true;
    while more
      invariant stream.Valid() && stream.bytesLeft + substream.End() == old(stream.End())
      invariant substream.Valid() && fresh(substream) && substream.data == stream.data
      invariant stream.data[substream.End()..old(stream.End())] == ReadString(old(stream.Rest())).rest
      invariant if more then stored' == stored && substream.Rest() == content else stored' == Store(stored, content)
      decreases more
    {
      ok, stored' := DecodeText(substream, stored');
      if !ok {
        return;
      }
      more := substream.bytesLeft != 0;
    }
    stream.CloseSubstream(substream);
    ok, slot := true, Call(Decoder(stored'));
  }

  /** `decode_callback_field`. A function that writes cannot be called to read. */
  method DecodeCallback(stream: IStream, wt: WireType, fn: Callback) returns (ok: bool, slot: Slot)
    requires stream.Valid()
    modifies stream
    ensures Did(stream, ReadCallback(wt, fn, old(stream.Rest())), ok, slot)
  {
    hide ReadString, ReadRaw, Skip, Store;
    slot := Call(fn);
    match fn
    case Encoder(_) =>
      ok := false;
    case Unset =>
      ok := stream.SkipField(wt);
    case Decoder(stored) =>
      if wt == StringWt {
        ok, slot := DecodeStringCallback(stream, stored);
      } else {
        var raw;
        ok, raw := stream.ReadRawValue(wt);
        if ok {
          var substream := new IStream(raw, 0, |raw|);
          assert substream.Rest() == raw;
          var stored';
          ok, stored' := DecodeText(substream, stored);
          slot := Call(Decoder(stored'));
        }
      }
  }

  /** `decode_field`. */
  method DecodeField(stream: IStream, f: Field, wt: WireType, slot: Slot) returns (ok: bool, slot': Slot)
    requires stream.Valid() && WellFormedField(f)
    modifies stream
    ensures Did(stream, ReadField(f, wt, slot, old(stream.Rest())), ok, slot')
    decreases stream.bytesLeft, 3
  {
    hide ReadStatic, ReadCallback, WellFormedField;
    if f.atype == Static {
      ok, slot' := DecodeStatic(stream, f, wt, slot);
    } else if slot.Call? {
      ok, slot' := DecodeCallback(stream, wt, slot.fn);
    } else {
      return false, slot;
    }
  }

  /** `pb_field_set_to_default`. */
  method SetFieldToDefault(f: Field, slot: Slot) returns (slot': Slot)
    ensures slot' == InitSlot(f, slot)
    decreases f, 0
  {
    hide Defaults, Inner;
    if f.atype == ByCallback {
      return if slot.Call? then slot else Call(Unset);
    }
    if f.htype == Repeated {
      return Rep([]);
    }
    var v := f.init;
    if f.ltype == Submessage {
      var m := SetToDefaults(f.sub, Inner(f, slot));
      v := Msg(m);
    }
    slot' := if f.htype == Required then Req(v) else Opt(false, v);
  }

  /** `pb_message_set_to_defaults`: field by field, until the iterator is back at the first. */
  method SetToDefaults(fields: seq<Field>, dest: seq<Slot>) returns (slots: seq<Slot>)
    requires |dest| == |fields|
    ensures slots == Defaults(fields, dest)
    decreases fields, 1
  {
    hide Defaults, InitSlot;
    slots := dest;
    var iter := new FieldIter(fields);
    var more := iter.Begin();
    ghost var i := 0;
    while more
      invariant iter.Valid() && iter.fields == fields && fresh(iter)
      invariant i <= |fields| == |slots| && (more <==> i < |fields|) && (more ==> iter.pos == i)
      invariant forall j | 0 <= j < |fields| :: slots[j] == if j < i then InitSlot(fields[j], dest[j]) else dest[j]
      decreases |fields| - i
    {
      var slot := SetFieldToDefault(fields[iter.pos], slots[iter.pos]);
      slots := slots[iter.pos := slot];
      more := iter.Next();
      i := i + 1;
    }
    assert slots == Defaults(fields, dest);
  }

  /** Counts the required fields by running the iterator to the end of the table. */
  method CountRequired(iter: FieldIter) returns (count: nat)
    requires iter.Valid()
    modifies iter
    ensures iter.Valid()
    ensures count == var n := RequiredBefore(iter.fields, |iter.fields|); if n > MAX_REQUIRED then MAX_REQUIRED else n
  {
    var more := true;
    ghost var last := iter.pos;
    count := 0;
    var lastRequired := true;
    while more
      invariant iter.Valid()
      invariant !more ==> iter.fields == [] || (last == |iter.fields| - 1 && iter.pos == 0)
      invariant !more && iter.fields != [] ==>
                  count == RequiredBefore(iter.fields, last) && lastRequired == (iter.fields[last].htype == Required)
      invariant !more && iter.fields == [] ==> count == 0
      decreases more, |iter.fields| - iter.pos
    {
      count := iter.requiredFieldIndex;
      lastRequired := iter.pos == |iter.fields| || iter.fields[iter.pos].htype == Required;
      last := iter.pos;
      more := iter.Next();
    }
    if lastRequired && iter.pos < |iter.fields| {
      count := count + 1;
    }
    if count > MAX_REQUIRED {
      count := MAX_REQUIRED;
    }
  }

  /** The first `n` bits of a word are the marks from `base` on. */
  lemma WordIsFull(words: seq<nat>, n: nat, base: nat, count: nat)
    requires |words| == 2 && words[0] < Pow2(32) && words[1] < Pow2(32) && count <= MAX_REQUIRED && n <= 32
    requires base == 0 || base == 32
    requires forall k: nat | count <= k < MAX_REQUIRED :: !Marked(words[0], words[1], k)
    requires n == 32 || base + n == count
    ensures words[base / 32] == ShiftRight(ALL_BITS, 32 - n) <==>
            forall k: nat | base <= k < base + n :: Marked(words[0], words[1], k)
  {
    hide Bit, ShiftRight, Pow2;
    var w := words[base / 32];
    forall j: nat | j < 32 ensures Marked(words[0], words[1], base + j) <==> Bit(w, j) {
    }
    forall j: nat | n <= j < 32 ensures !Bit(w, j) {
      assert !Marked(words[0], words[1], base + j);
    }
    FullWord(w, n);
    if forall k: nat | base <= k < base + n :: Marked(words[0], words[1], k) {
      forall j: nat | j < n ensures Bit(w, j) {
        assert Marked(words[0], words[1], base + j);
      }
    }
    if forall j: nat | j < n :: Bit(w, j) {
      forall k: nat | base <= k < base + n ensures Marked(words[0], words[1], k) {
        assert Bit(w, k - base);
      }
    }
  }

  /** The final check of `pb_decode_noinit`: the whole words first, then the remaining bits. */
  method AllSeen(fieldsSeen: seq<nat>, count: nat) returns (ok: bool)
    requires |fieldsSeen| == 2 && fieldsSeen[0] < Pow2(32) && fieldsSeen[1] < Pow2(32) && count <= MAX_REQUIRED
    requires forall k: nat | count <= k < MAX_REQUIRED :: !Marked(fieldsSeen[0], fieldsSeen[1], k)
    ensures ok <==> forall k: nat | k < count :: Marked(fieldsSeen[0], fieldsSeen[1], k)
  {
    hide Bit, Pow2, Marked;
    for i := 0 to count / 32
      invariant forall k: nat | k < 32 * i :: Marked(fieldsSeen[0], fieldsSeen[1], k)
    {
      WordIsFull(fieldsSeen, 32, 32 * i, count);
      if fieldsSeen[i] != ALL_BITS {
        return false;
      }
    }
    if count % 32 != 0 {
      WordIsFull(fieldsSeen, count % 32, count / 32 * 32, count);
      if fieldsSeen[count / 32] != ShiftRight(ALL_BITS, 32 - count % 32) {
        return false;
      }
    }
    ok := true;
  }

  datatype Status = Continue | Finished | Failed

  /** `fields_seen[index >> 5] |= 1 << (index & 31)`, for the field the iterator stands on. */
  method NoteRequired(iter: FieldIter, fieldsSeen: seq<nat>, ghost seen: seq<bool>) returns (fieldsSeen': seq<nat>)
    requires iter.Valid() && iter.pos < |iter.fields| == |seen| && |fieldsSeen| == 2
    requires Marks(iter.fields, seen, fieldsSeen[0], fieldsSeen[1])
    ensures |fieldsSeen'| == 2 && Marks(iter.fields, seen[iter.pos := true], fieldsSeen'[0], fieldsSeen'[1])
  {
    hide Marks, SetBit;
    MarkField(iter.fields, seen, fieldsSeen[0], fieldsSeen[1], iter.pos);
    var index := iter.requiredFieldIndex;
    fieldsSeen' := fieldsSeen;
    if iter.fields[iter.pos].htype == Required && index < MAX_REQUIRED {
      fieldsSeen' := fieldsSeen[index / 32 := SetBit(fieldsSeen[index / 32], index % 32)];
    }
  }

  /** One turn of the loop of `pb_decode_noinit`. */
  method DecodeRecord(stream: IStream, iter: FieldIter, slots: seq<Slot>, fieldsSeen: seq<nat>, ghost seen: seq<bool>)
      returns (status: Status, slots': seq<Slot>, fieldsSeen': seq<nat>, ghost seen': seq<bool>)
    requires stream.Valid() && iter.Valid() && WellFormed(iter.fields) && stream.Rest() != []
    requires Fits(iter.fields, Dest(slots, seen)) && |fieldsSeen| == 2
    requires Marks(iter.fields, seen, fieldsSeen[0], fieldsSeen[1])
    modifies stream, iter
    ensures stream.Valid() && iter.Valid() && stream.End() <= old(stream.End())
    ensures var step := OneRecord(iter.fields, Dest(slots, seen), old(stream.Rest()));
            match status
            case Continue => step == Next(Dest(slots', seen'), stream.Rest())
            case Finished => step == Stop && slots' == slots && fieldsSeen' == fieldsSeen && seen' == seen
            case Failed => step == Fail
    ensures status != Failed ==> stream.End() == old(stream.End())
    ensures status == Continue ==> |fieldsSeen'| == 2 && Marks(iter.fields, seen', fieldsSeen'[0], fieldsSeen'[1])
    decreases stream.bytesLeft, 4
  {
    hide ReadVarint32, ReadField, Skip, Marks, WellFormed, Lookup;
    slots', fieldsSeen', seen' := slots, fieldsSeen, seen;
    ReadVarint32Fits(stream.Rest());
    var ok, temp, eof := stream.DecodeVarint32();
    if !ok {
      status := if eof then Finished else Failed;
      return;
    }
    if temp == 0 {
      return Finished, slots, fieldsSeen, seen;
    }
    var tag, wt := temp / 8, WireTypeOf(temp % 8);
    var found := iter.Find(tag);
    if !found {
      ok := stream.SkipField(wt);
      status := if ok then Continue else Failed;
      return;
    }
    if iter.pos == |iter.fields| {
      return Failed, slots, fieldsSeen, seen;
    }
    var i := iter.pos;
    LookupIsUnique(iter.fields, i);
    FieldIsWellFormed(iter.fields, i);
    fieldsSeen' := NoteRequired(iter, fieldsSeen, seen);
    var slot;
    ok, slot := DecodeField(stream, iter.fields[i], wt, slots[i]);
    if !ok {
      return Failed, slots, fieldsSeen, seen;
    }
    status, slots', seen' := Continue, slots[i := slot], seen[i := true];
  }

  /** The loop of `pb_decode_noinit`. */
  method DecodeRecords(stream: IStream, iter: FieldIter, slots: seq<Slot>)
      returns (ok: bool, slots': seq<Slot>, fieldsSeen: seq<nat>, ghost seen: seq<bool>)
    requires stream.Valid() && iter.Valid() && WellFormed(iter.fields) && |slots| == |iter.fields|
    modifies stream, iter
    ensures stream.Valid() && iter.Valid() && stream.End() <= old(stream.End())
    ensures var r := Parse(iter.fields, Start(slots), old(stream.Rest()));
            if ok then r == Some(Dest(slots', seen)) else r == None
    ensures ok ==>
              && |fieldsSeen| == 2 && |seen| == |iter.fields|
              && Marks(iter.fields, seen, fieldsSeen[0], fieldsSeen[1])
    ensures ok ==> stream.End() == old(stream.End())
    decreases stream.bytesLeft, 5
  {
    hide OneRecord, Marks, WellFormed;
    slots', fieldsSeen, seen := slots, [0, 0], Start(slots).seen;
    NothingMarked(iter.fields);
    while stream.bytesLeft > 0
      invariant stream.Valid() && stream.End() == old(stream.End()) && iter.Valid()
      invariant Fits(iter.fields, Dest(slots', seen)) && |fieldsSeen| == 2
      invariant Marks(iter.fields, seen, fieldsSeen[0], fieldsSeen[1])
      invariant Parse(iter.fields, Start(slots), old(stream.Rest()))
                == Parse(iter.fields, Dest(slots', seen), stream.Rest())
      decreases stream.bytesLeft
    {
      var status;
      status, slots', fieldsSeen, seen := DecodeRecord(stream, iter, slots', fieldsSeen, seen);
      if status == Failed {
        return false, slots', fieldsSeen, seen;
      }
      if status == Finished {
        return true, slots', fieldsSeen, seen;
      }
    }
    ok := true;
  }

  /** `pb_decode_noinit`. */
  method DecodeMessage(stream: IStream, fields: seq<Field>, slots: seq<Slot>) returns (ok: bool, slots': seq<Slot>)
    requires stream.Valid() && WellFormed(fields)
    modifies stream
    ensures stream.Valid() && stream.End() <= old(stream.End())
    ensures ok == DecodeNoinit(fields, slots, old(stream.Rest())).Some?
    ensures ok ==> DecodeNoinit(fields, slots, old(stream.Rest())) == Some(slots') && stream.End() == old(stream.End())
    decreases stream.bytesLeft, 6
  {
    hide Parse, Marks, WellFormed, RequiredBefore, Complete;
    if |slots| != |fields| {
      return false, slots;
    }
    var iter := new FieldIter(fields);
    var fieldsSeen;
    ghost var seen;
    ok, slots', fieldsSeen, seen := DecodeRecords(stream, iter, slots);
    if !ok {
      return;
    }
    var count := CountRequired(iter);
    AllMarked(fields, seen, fieldsSeen[0], fieldsSeen[1], count);
    MarksBeyond(fields, seen, fieldsSeen[0], fieldsSeen[1]);
    ok := AllSeen(fieldsSeen, count);
  }

  lemma MarksBeyond(fields: seq<Field>, seen: seq<bool>, low: nat, high: nat)
    requires |seen| == |fields| && Marks(fields, seen, low, high)
    ensures low < Pow2(32) && high < Pow2(32)
    ensures forall k: nat | RequiredBefore(fields, |fields|) <= k < MAX_REQUIRED :: !Marked(low, high, k)
  {
  }

  /** `pb_decode` of a whole buffer, into a struct with the callbacks of `dest`: defaults first, then the records. */
  method DecodeBuffer(data: seq<byte>, fields: seq<Field>, dest: seq<Slot>) returns (ok: bool, slots: seq<Slot>)
    requires WellFormed(fields) && |dest| == |fields|
    ensures ok == Decode(fields, dest, data).Some?
    ensures ok ==> Decode(fields, dest, data) == Some(slots)
  {
    hide DecodeNoinit, WellFormed, Defaults;
    slots := SetToDefaults(fields, dest);
    var stream := new IStream(data, 0, |data|);
    assert stream.Rest() == data;
    ok, slots := DecodeMessage(stream, fields, slots);
  }
}
