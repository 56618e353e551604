/** What the encoder writes, as a function of the field table and the message. */
module PbEncode {
  import opened Bytes
  import opened PbWire
  import opened PbTable

  /** Half the number of values of an integer of `d` bytes. */
  function Half(d: nat): int {
    if d == 1 then 0x80 else if d == 2 then 0x8000 else if d == 4 then 0x8000_0000 else TWO_63
  }

  lemma HalfBounds(d: nat)
    ensures 0 < Half(d) <= TWO_63
    ensures ValidSize(d) && d != 8 ==> Half(d) <= Half(4)
  {
  }

  /** The loop of `pb_enc_string`: up to the terminator or the end of the buffer. */
  function StrLen(b: seq<byte>): (n: nat)
    ensures n <= |b| && (n < |b| ==> b[n] == 0) && (forall i | 0 <= i < n :: b[i] != 0)
  {
    if b == [] || b[0] == 0 then 0 else 1 + StrLen(b[1..])
  }

  /** `b` is what a buffer of `size` bytes holds as a C string, with the terminator if there is one. */
  predicate IsCString(size: nat, b: seq<byte>) {
    |b| <= size && (if StrLen(b) < |b| then StrLen(b) + 1 == |b| else |b| == size)
  }

  /** The bytes of one value that is not a message; None for an encoding error (or a value C could not hold). */
  function EncScalar(f: Field, v: Value): Option<seq<byte>> {
    match f.ltype
    case Varint => if v.Int? && ValidSize(f.dataSize) && -Half(f.dataSize) <= v.n < Half(f.dataSize)
                   then Some(EncVarint(U64(v.n))) else None
    case UVarint => if v.Int? && ValidSize(f.dataSize) && 0 <= v.n < 2 * Half(f.dataSize)
                    then Some(EncVarint(v.n)) else None
    case SVarint => if v.Int? && ValidSize(f.dataSize) && -Half(f.dataSize) <= v.n < Half(f.dataSize)
                    then Some(EncVarint(ZigZag(v.n))) else None
    case Fixed32 => if v.Int? && 0 <= v.n < TWO_32 then Some(EncFixed(v.n, 4)) else None
    case Fixed64 => if v.Int? && 0 <= v.n < TWO_64 then Some(EncFixed(v.n, 8)) else None
    case BytesField => if v.Raw? && |v.b| + HEADER <= f.dataSize then Some(EncString(v.b)) else None
    case StringField => if v.Raw? && IsCString(f.dataSize, v.b) then Some(EncString(v.b[..StrLen(v.b)])) else None
    case FixedBytes => if v.Raw? && |v.b| == f.dataSize then Some(EncString(v.b)) else None
    case Submessage => None
  }

  // ----- callbacks, and the passes in which they are called

  /** One call of a callback: the bytes it writes, and what it returns. */
  datatype Act = Act(bytes: seq<byte>, ok: bool)

  /** What callback `id` does in the call that belongs to the passes `path`. */
  type Script = (nat, seq<bool>) -> Act

  /**
    * A walk over a message, in which every callback has its own number. `path` says of each submessage around, from
    * the outside in, whether it is being sized (false) or written (true). A callback and a path identify one call, and
    * the script is any function of them: a callback may read what state it likes and do something else each time.
    */
  datatype Pass = Pass(script: Script, path: seq<bool>)

  predicate Counting(p: Pass) { p.path != [] && !p.path[|p.path| - 1] }
  function SizingOf(p: Pass): Pass { p.(path := p.path + [false]) }
  function WritingOf(p: Pass): Pass { p.(path := p.path + [true]) }

  /**
    * The two passes over a submessage: the length of the first, the bytes of the second, and an error if they differ.
    */
  function SubmessageOf(first: Option<seq<byte>>, second: Option<seq<byte>>): Option<seq<byte>> {
    if first.Some? && second.Some? && |first.value| == |second.value| then Some(EncString(second.value)) else None
  }

  function Cat(a: Option<seq<byte>>, b: Option<seq<byte>>): Option<seq<byte>> {
    if a.Some? && b.Some? then Some(a.value + b.value) else None
  }

  function WireNumber(l: LType): nat {
    match l
    case Varint => 0 case UVarint => 0 case SVarint => 0
    case Fixed32 => 5
    case Fixed64 => 1
    case _ => 2
  }

  function EncTag(tag: nat, wire: nat): seq<byte> { EncVarint(8 * tag + wire) }

  function EncValue(p: Pass, f: Field, v: Value): Option<seq<byte>>
    decreases f, 0, 0
  {
    if f.ltype != Submessage then EncScalar(f, v)
    else if !v.Msg? then None
    else
      var first := Enc(SizingOf(p), f.sub, v.m);
      SubmessageOf(first, if Counting(p) then first else Enc(WritingOf(p), f.sub, v.m))
  }

  function EncTagged(p: Pass, f: Field, v: Value): Option<seq<byte>>
    decreases f, 1, 0
  {
    Cat(Some(EncTag(f.tag, WireNumber(f.ltype))), EncValue(p, f, v))
  }

  function EncPacked(f: Field, vs: seq<Value>): Option<seq<byte>>
    decreases |vs|
  {
    if vs == [] then Some([]) else Cat(EncScalar(f, vs[0]), EncPacked(f, vs[1..]))
  }

  function EncItems(p: Pass, f: Field, vs: seq<Value>): Option<seq<byte>>
    decreases f, 2, |vs|
  {
    if vs == [] then Some([]) else Cat(EncTagged(p, f, vs[0]), EncItems(p, f, vs[1..]))
  }

  function EncPackedArray(f: Field, vs: seq<Value>): Option<seq<byte>> {
    match EncPacked(f, vs)
    case Some(b) => Some(EncTag(f.tag, 2) + EncString(b))
    case None => None
  }

  /** `encode_array`. */
  function EncArray(p: Pass, f: Field, vs: seq<Value>): Option<seq<byte>>
    decreases f, 3, 0
  {
    if vs == [] then Some([])
    else if |vs| > f.arraySize then None
    else if Packable(f) then EncPackedArray(f, vs)
    else EncItems(p, f, vs)
  }

  /** A field of length-prefixed bytes. */
  function TextField(f: Field, content: seq<byte>): seq<byte> {
    EncTag(f.tag, WireNumber(f.ltype)) + EncString(content)
  }

  /** `encode_callback_field`: without a function nothing is written, not even for a required field. */
  function EncCallback(p: Pass, fn: Callback): Option<seq<byte>> {
    match fn
    case Unset => Some([])
    case Encoder(id) => if p.script(id, p.path).ok then Some(p.script(id, p.path).bytes) else None
    case Decoder(_) => None
  }

  /** `encode_field`. */
  function EncSlot(p: Pass, f: Field, slot: Slot): Option<seq<byte>>
    decreases f, 4, 0
  {
    if f.atype == ByCallback then (if slot.Call? then EncCallback(p, slot.fn) else None)
    else
      match slot
      case Req(v) => if f.htype == Required then EncTagged(p, f, v) else None
      case Opt(has, v) => if f.htype == Optional then (if has then EncTagged(p, f, v) else Some([])) else None
      case Rep(vs) => if f.htype == Repeated then EncArray(p, f, vs) else None
      case Call(_) => None
  }

  /** `pb_encode`: every field, in the order of the table. */
  function Enc(p: Pass, fields: seq<Field>, slots: seq<Slot>): Option<seq<byte>>
    decreases fields, 5, 0
  {
    if |fields| != |slots| then None
    else if fields == [] then Some([])
    else Cat(EncSlot(p, fields[0], slots[0]), Enc(p, fields[1..], slots[1..]))
  }

  /** All values of a fixed-width type take the same room, so a packed array's size needs no sizing pass. */
  lemma {:induction false} PackedFixedSize(f: Field, vs: seq<Value>)
    requires EncPacked(f, vs).Some?
    ensures f.ltype == Fixed32 ==> |EncPacked(f, vs).value| == 4 * |vs|
    ensures f.ltype == Fixed64 ==> |EncPacked(f, vs).value| == 8 * |vs|
    decreases |vs|
  {
    if vs != [] {
      PackedFixedSize(f, vs[1..]);
    }
  }

  lemma EncPrefix(p: Pass, fields: seq<Field>, slots: seq<Slot>, i: nat)
    requires i < |fields| == |slots|
    ensures Enc(p, fields[i..], slots[i..])
            == Cat(EncSlot(p, fields[i], slots[i]), Enc(p, fields[i + 1..], slots[i + 1..]))
  {
    assert fields[i..][1..] == fields[i + 1..] && slots[i..][1..] == slots[i + 1..];
  }
}
