/** What the decoder makes of a byte string, as a function of the field table. */
module PbDecode {
  import opened Bytes
  import opened PbWire
  import opened PbTable
  import opened PbEncode

  /** A C cast to a signed integer of `d` bytes. */
  function Cast(n: int, d: nat): int {
    var m := n % (2 * Half(d));
    if m >= Half(d) then m - 2 * Half(d) else m
  }

  /** `pb_dec_varint`: fields below 64 bits are read as 32-bit numbers first. */
  function VarintValue(d: nat, x: nat): Option<int>
    requires x < TWO_64
  {
    var s := if d == 8 then S64(x) else Cast(x, 4);
    if ValidSize(d) && Cast(s, d) == s then Some(s) else None
  }

  /** `pb_dec_uvarint`. */
  function UVarintValue(d: nat, x: nat): Option<int>
    requires x < TWO_64
  {
    if ValidSize(d) && x % (2 * Half(d)) == x then Some(x) else None
  }

  /** `pb_dec_svarint`. */
  function SVarintValue(d: nat, x: nat): Option<int>
    requires x < TWO_64
  {
    if ValidSize(d) && Cast(UnZigZag(x), d) == UnZigZag(x) then Some(UnZigZag(x)) else None
  }

  function ReadInt(f: Field, s: seq<byte>): Read<Value>
    requires f.ltype in {Varint, UVarint, SVarint}
  {
    ReadVarintFits(s);
    match ReadVarint(s)
    case Bad => Bad
    case Got(x, rest) =>
      var v := if f.ltype == Varint then VarintValue(f.dataSize, x)
               else if f.ltype == UVarint then UVarintValue(f.dataSize, x)
               else SVarintValue(f.dataSize, x);
      if v.Some? then Got(Int(v.value), rest) else Bad
  }

  function ReadFixed(s: seq<byte>, width: nat): Read<Value> {
    if |s| >= width then Got(Int(FromFixed(s[..width])), s[width..]) else Bad
  }

  /** `pb_dec_bytes`, `pb_dec_string` and `pb_dec_fixed_length_bytes`. */
  function ReadBlob(f: Field, s: seq<byte>): Read<Value>
    requires f.ltype in {BytesField, StringField, FixedBytes}
  {
    match ReadLength(s)
    case Bad => Bad
    case Got(n, rest) =>
      if f.ltype == StringField then
        if n + 1 > f.dataSize || n > |rest| then Bad
        else Got(Raw(rest[..n][..StrLen(rest[..n])] + [0]), rest[n..])
      else if n > SIZE_MAX then Bad
      else if f.ltype == BytesField then
        if n + HEADER > f.dataSize || n > |rest| then Bad else Got(Raw(rest[..n]), rest[n..])
      else
        if n == 0 then Got(Raw(seq(f.dataSize, _ => 0)), rest)
        else if n != f.dataSize || n > |rest| then Bad
        else Got(Raw(rest[..n]), rest[n..])
  }

  function ReadScalar(f: Field, s: seq<byte>): Read<Value> {
    match f.ltype
    case Varint => ReadInt(f, s)
    case UVarint => ReadInt(f, s)
    case SVarint => ReadInt(f, s)
    case Fixed32 => ReadFixed(s, 4)
    case Fixed64 => ReadFixed(s, 8)
    case BytesField => ReadBlob(f, s)
    case StringField => ReadBlob(f, s)
    case FixedBytes => ReadBlob(f, s)
    case Submessage => Bad
  }

  lemma ScalarShrinks(f: Field, s: seq<byte>)
    ensures ReadScalar(f, s).Got? ==> |ReadScalar(f, s).rest| < |s|
  {
    ReadVarintFits(s);
    ReadStringShrinks(s);
  }

  /** The loop over a packed array: until its bytes or the room in the array are used up. */
  function ReadPacked(f: Field, vs: seq<Value>, s: seq<byte>): Option<seq<Value>>
    decreases |s|
  {
    if s == [] then Some(vs)
    else if |vs| >= f.arraySize then None
    else
      ScalarShrinks(f, s);
      match ReadScalar(f, s)
      case Got(v, rest) => ReadPacked(f, vs + [v], rest)
      case Bad => None
  }

  /** The message under construction, and which of its fields have occurred. */
  datatype Dest = Dest(slots: seq<Slot>, seen: seq<bool>)

  predicate Fits(fields: seq<Field>, d: Dest) { |d.slots| == |d.seen| == |fields| }

  /** The value of a field; a message is merged into the current value, or starts afresh in an array. */
  function ReadValue(f: Field, cur: Value, s: seq<byte>): (r: Read<Value>)
    ensures r.Got? ==> |r.rest| < |s|
    decreases |s|, 1
  {
    ScalarShrinks(f, s);
    ReadStringShrinks(s);
    if f.ltype != Submessage then ReadScalar(f, s)
    else
      match ReadString(s)
      case Bad => Bad
      case Got(body, rest) =>
        var start := if f.htype == Repeated then Defaults(f.sub, Blank(f.sub)) else if cur.Msg? then cur.m else [];
        match DecodeNoinit(f.sub, start, body)
        case Some(m) => Got(Msg(m), rest)
        case None => Bad
  }

  /** `decode_static_field`. */
  function ReadStatic(f: Field, wt: WireType, slot: Slot, s: seq<byte>): (r: Read<Slot>)
    ensures r.Got? ==> |r.rest| < |s|
    decreases |s|, 2
  {
    match slot
    case Req(v) => (match ReadValue(f, v, s) case Got(v', rest) => Got(Req(v'), rest) case Bad => Bad)
    case Opt(_, v) => (match ReadValue(f, v, s) case Got(v', rest) => Got(Opt(true, v'), rest) case Bad => Bad)
    case Rep(vs) =>
      if wt == StringWt && Packable(f) then
        ReadStringShrinks(s);
        match ReadString(s)
        case Bad => Bad
        case Got(body, rest) => (match ReadPacked(f, vs, body) case Some(vs') => Got(Rep(vs'), rest) case None => Bad)
      else if |vs| >= f.arraySize then Bad
      else
        (match ReadValue(f, Int(0), s)
         case Got(v, rest) => Got(Rep(vs + [v]), rest)
         case Bad => Bad)
    case Call(_) => Bad
  }

  /** `decode_string` of the speech client: takes everything, but an empty string leaves what was there. */
  function Store(stored: Option<seq<byte>>, content: seq<byte>): Option<seq<byte>> {
    if content == [] then stored else Some(content)
  }

  /** `decode_callback_field`: without a function the value is skipped; a single number is passed on byte by byte. */
  function ReadCallback(wt: WireType, fn: Callback, s: seq<byte>): (r: Read<Slot>)
    ensures r.Got? ==> |r.rest| < |s|
  {
    match fn
    case Encoder(_) => Bad
    case Unset =>
      (match Skip(wt, s) case Got(_, rest) => (SkipIsLocal(wt, s, []); Got(Call(Unset), rest)) case Bad => Bad)
    case Decoder(stored) =>
      if wt == StringWt then
        ReadStringShrinks(s);
        match ReadString(s)
        case Got(content, rest) => Got(Call(Decoder(Store(stored, content))), rest)
        case Bad => Bad
      else
        match ReadRaw(wt, s)
        case Got(content, rest) => (RawIsLocal(wt, s, []); Got(Call(Decoder(Store(stored, content))), rest))
        case Bad => Bad
  }

  /** `decode_field`. */
  function ReadField(f: Field, wt: WireType, slot: Slot, s: seq<byte>): (r: Read<Slot>)
    ensures r.Got? ==> |r.rest| < |s|
    decreases |s|, 3
  {
    if f.atype == ByCallback then (if slot.Call? then ReadCallback(wt, slot.fn, s) else Bad)
    else ReadStatic(f, wt, slot, s)
  }

  datatype Step = Next(d: Dest, rest: seq<byte>) | Stop | Fail

  /** One turn of the loop in `pb_decode_noinit`; a zero tag ends the message. */
  function OneRecord(fields: seq<Field>, d: Dest, s: seq<byte>): (r: Step)
    requires Fits(fields, d) && s != []
    ensures r.Next? ==> Fits(fields, r.d) && |r.rest| < |s|
    decreases |s|, 0
  {
    ReadVarint32Fits(s);
    match ReadVarint32(s)
    case Eof => Stop
    case Bad32 => Fail
    case Value32(temp, rest) =>
      if temp == 0 then Stop
      else if fields == [] && temp / 8 == 0 then Fail
      else
        var wt := WireTypeOf(temp % 8);
        match Lookup(fields, temp / 8)
        case None =>
          if Skip(wt, rest).Bad? then Fail
          else
            SkipIsLocal(wt, rest, []);
            Next(d, Skip(wt, rest).rest)
        case Some(i) =>
          match ReadField(fields[i], wt, d.slots[i], rest)
          case Bad => Fail
          case Got(slot, rest') => Next(Dest(d.slots[i := slot], d.seen[i := true]), rest')
  }

  /** The loop in `pb_decode_noinit`. */
  function Parse(fields: seq<Field>, d: Dest, s: seq<byte>): (r: Option<Dest>)
    requires Fits(fields, d)
    ensures r.Some? ==> Fits(fields, r.value)
    decreases |s|, 4
  {
    if s == [] then Some(d)
    else
      match OneRecord(fields, d, s)
      case Stop => Some(d)
      case Fail => None
      case Next(d', rest) => Parse(fields, d', rest)
  }

  /** Field `i` is required and among the first 64 required ones. */
  predicate Tracked(fields: seq<Field>, i: nat)
    requires i < |fields|
  {
    fields[i].htype == Required && RequiredBefore(fields, i) < MAX_REQUIRED
  }

  /** The first 64 required fields of a table are kept track of. */
  lemma TrackedExactly(fields: seq<Field>, i: nat)
    requires i < |fields|
    ensures Tracked(fields, i) <==> fields[i].htype == Required && |RequiredFieldsBefore(fields, i)| < 64
  {
    RequiredBeforeCounts(fields, i);
  }

  predicate Complete(fields: seq<Field>, seen: seq<bool>)
    requires |seen| == |fields|
  {
    forall i | 0 <= i < |fields| :: Tracked(fields, i) ==> seen[i]
  }

  function Start(slots: seq<Slot>): Dest { Dest(slots, seq(|slots|, _ => false)) }

  /** `pb_decode_noinit`: succeeds exactly when the records are well formed and every tracked field has occurred. */
  function DecodeNoinit(fields: seq<Field>, slots: seq<Slot>, s: seq<byte>): Option<seq<Slot>>
    decreases |s|, 5
  {
    if |slots| != |fields| then None
    else
      match Parse(fields, Start(slots), s)
      case None => None
      case Some(d) => if Complete(fields, d.seen) then Some(d.slots) else None
  }

  /** `pb_decode` into a struct with the callbacks that the receiver has set. */
  function Decode(fields: seq<Field>, dest: seq<Slot>, s: seq<byte>): Option<seq<Slot>>
    requires |dest| == |fields|
  {
    DecodeNoinit(fields, Defaults(fields, dest), s)
  }
}
