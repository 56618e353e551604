/** Field tables, the messages they describe, and the circular field iterator. */
module PbTable {
  import opened Bytes

  const SIZE_MAX := 255        // PB_SIZE_MAX with 8-bit pb_size_t
  const HEADER := 1            // offset of the data in pb_bytes_array_t
  const MAX_REQUIRED := 64     // PB_MAX_REQUIRED_FIELDS

  datatype Option<T> = Some(value: T) | None

  datatype LType = Varint | UVarint | SVarint | Fixed32 | Fixed64 | BytesField | StringField | Submessage | FixedBytes
  datatype HType = Required | Optional | Repeated

  /** Whether the struct holds the value, or functions that the user provides to write and read it. */
  datatype AType = Static | ByCallback

  /** `pb_field_t`; `init` is what `ptr` points to, or zero. */
  datatype Field = Field(tag: nat, ltype: LType, htype: HType, atype: AType, dataSize: nat, arraySize: nat,
                         sub: seq<Field>,
                         init: Value)

  /** A string is its buffer up to and including the terminator, or the whole buffer when there is none. */
  datatype Value = Int(n: int) | Raw(b: seq<byte>) | Msg(m: seq<Slot>)

  /**
    * `pb_callback_t`: no function; one that writes, known by a number; or the one with which the speech client reads,
    * with the string it has stored, if any.
    */
  datatype Callback = Unset | Encoder(id: nat) | Decoder(stored: Option<seq<byte>>)

  /** What the message struct holds for one field. */
  datatype Slot = Req(v: Value) | Opt(has: bool, v: Value) | Rep(vs: seq<Value>) | Call(fn: Callback)

  predicate ValidSize(d: nat) { d == 1 || d == 2 || d == 4 || d == 8 }

  predicate Packable(f: Field) { f.ltype in {Varint, UVarint, SVarint, Fixed32, Fixed64} }

  predicate WellFormedField(f: Field) {
    && 0 < f.tag <= SIZE_MAX && f.dataSize <= SIZE_MAX && f.arraySize <= SIZE_MAX
    && (f.atype == Static && f.ltype in {Varint, UVarint, SVarint} ==> ValidSize(f.dataSize))
    && (f.atype == Static && f.ltype == Submessage ==> WellFormed(f.sub))
  }

  /** Distinct non-zero tags, at every level. */
  predicate WellFormed(fields: seq<Field>) {
    && (forall i | 0 <= i < |fields| :: WellFormedField(fields[i]))
    && (forall i, j | 0 <= i < j < |fields| :: fields[i].tag != fields[j].tag)
  }

  lemma FieldIsWellFormed(fields: seq<Field>, i: nat)
    requires WellFormed(fields) && i < |fields|
    ensures WellFormedField(fields[i])
  {
  }

  // ----- the defaults

  /** A struct in which no callback is set. */
  function Blank(fields: seq<Field>): (r: seq<Slot>)
    ensures |r| == |fields|
    decreases fields, 1
  {
    seq(|fields|, i requires 0 <= i < |fields| => BlankSlot(fields[i]))
  }

  function BlankSlot(f: Field): Slot
    decreases f, 0
  {
    if f.atype == ByCallback then Call(Unset)
    else
      var zero := if f.ltype == Submessage then Msg(Blank(f.sub)) else f.init;
      match f.htype
      case Required => Req(zero)
      case Optional => Opt(false, zero)
      case Repeated => Rep([])
  }

  /** The submessage that the struct holds in a singular field. */
  function Inner(f: Field, slot: Slot): (m: seq<Slot>)
    ensures |m| == |f.sub|
  {
    match slot
    case Req(Msg(m)) => if |m| == |f.sub| then m else Blank(f.sub)
    case Opt(_, Msg(m)) => if |m| == |f.sub| then m else Blank(f.sub)
    case _ => Blank(f.sub)
  }

  function InitValue(f: Field, slot: Slot): Value
    decreases f, 0
  {
    if f.ltype == Submessage then Msg(Defaults(f.sub, Inner(f, slot))) else f.init
  }

  /** `pb_field_set_to_default`: callbacks are left as they are. */
  function InitSlot(f: Field, slot: Slot): Slot
    decreases f, 1
  {
    if f.atype == ByCallback then (if slot.Call? then slot else Call(Unset))
    else
      match f.htype
      case Required => Req(InitValue(f, slot))
      case Optional => Opt(false, InitValue(f, slot))
      case Repeated => Rep([])
  }

  /** `pb_message_set_to_defaults`. */
  function Defaults(fields: seq<Field>, slots: seq<Slot>): (r: seq<Slot>)
    requires |slots| == |fields|
    ensures |r| == |fields|
    ensures forall i | 0 <= i < |fields| :: r[i] == InitSlot(fields[i], slots[i])
    decreases fields, 2
  {
    seq(|fields|, i requires 0 <= i < |fields| => InitSlot(fields[i], slots[i]))
  }

  /** Two structs with the same callbacks, at every level of singular submessages. */
  predicate SameCallbacks(fields: seq<Field>, a: seq<Slot>, b: seq<Slot>)
    requires |a| == |b| == |fields|
    decreases fields, 1
  {
    forall i | 0 <= i < |fields| :: SameCallback(fields[i], a[i], b[i])
  }

  predicate SameCallback(f: Field, a: Slot, b: Slot)
    decreases f, 0
  {
    if f.atype == ByCallback then (if a.Call? then a == b else !b.Call?)
    else f.ltype == Submessage && f.htype != Repeated ==> SameCallbacks(f.sub, Inner(f, a), Inner(f, b))
  }

  /** The defaults depend on nothing in the struct but its callbacks. */
  lemma DefaultsForget(fields: seq<Field>, a: seq<Slot>, b: seq<Slot>)
    requires |a| == |b| == |fields| && SameCallbacks(fields, a, b)
    ensures Defaults(fields, a) == Defaults(fields, b)
    decreases fields
  {
    forall i | 0 <= i < |fields| ensures InitSlot(fields[i], a[i]) == InitSlot(fields[i], b[i]) {
      var f := fields[i];
      assert SameCallback(f, a[i], b[i]);
      if f.atype == Static && f.ltype == Submessage && f.htype != Repeated {
        DefaultsForget(f.sub, Inner(f, a[i]), Inner(f, b[i]));
      }
    }
  }

  lemma InnerOfDefault(f: Field, slot: Slot)
    requires f.atype == Static && f.ltype == Submessage && f.htype != Repeated
    ensures Inner(f, InitSlot(f, slot)) == Defaults(f.sub, Inner(f, slot))
  {
    hide Defaults, Inner;
    var m := Defaults(f.sub, Inner(f, slot));
    assert InitValue(f, slot) == Msg(m);
    InnerIs(f, InitSlot(f, slot), m);
  }

  lemma InnerIs(f: Field, slot: Slot, m: seq<Slot>)
    requires |m| == |f.sub| && (slot == Req(Msg(m)) || slot == Opt(false, Msg(m)))
    ensures Inner(f, slot) == m
  {
  }

  lemma SlotTwice(f: Field, slot: Slot)
    ensures InitSlot(f, InitSlot(f, slot)) == InitSlot(f, slot) && SameCallback(f, slot, slot)
    decreases f, 0
  {
    hide Defaults;
    if f.atype == Static && f.ltype == Submessage && f.htype != Repeated {
      DefaultsTwice(f.sub, Inner(f, slot));
      InnerOfDefault(f, slot);
    }
  }

  /** The defaults are values of their own kind: setting them again changes nothing. */
  lemma DefaultsTwice(fields: seq<Field>, slots: seq<Slot>)
    requires |slots| == |fields|
    ensures Defaults(fields, Defaults(fields, slots)) == Defaults(fields, slots)
    ensures SameCallbacks(fields, slots, slots)
    decreases fields, 1
  {
    hide InitSlot;
    forall i | 0 <= i < |fields|
      ensures InitSlot(fields[i], InitSlot(fields[i], slots[i])) == InitSlot(fields[i], slots[i])
      ensures SameCallback(fields[i], slots[i], slots[i])
    {
      SlotTwice(fields[i], slots[i]);
    }
  }

  // ----- looking fields up

  function RequiredBefore(fields: seq<Field>, i: nat): (r: nat)
    requires i <= |fields|
    ensures r <= i
  {
    if i == 0 then 0 else RequiredBefore(fields, i - 1) + if fields[i - 1].htype == Required then 1 else 0
  }

  /** The required fields in front of field `i`. */
  function RequiredFieldsBefore(fields: seq<Field>, i: nat): set<nat>
    requires i <= |fields|
  {
    set j: nat | j < i && fields[j].htype == Required
  }

  lemma {:induction false} RequiredBeforeCounts(fields: seq<Field>, i: nat)
    requires i <= |fields|
    ensures RequiredBefore(fields, i) == |RequiredFieldsBefore(fields, i)|
  {
    if i > 0 {
      RequiredBeforeCounts(fields, i - 1);
      var before := RequiredFieldsBefore(fields, i - 1);
      if fields[i - 1].htype == Required {
        assert RequiredFieldsBefore(fields, i) == before + {i - 1};
      } else {
        assert RequiredFieldsBefore(fields, i) == before;
      }
    }
  }

  predicate Has(fields: seq<Field>, tag: nat) {
    exists i | 0 <= i < |fields| :: fields[i].tag == tag
  }

  /** The field with the tag. */
  function Lookup(fields: seq<Field>, tag: nat): (r: Option<nat>)
    ensures r.Some? ==> r.value < |fields| && fields[r.value].tag == tag
    ensures r.None? <==> !Has(fields, tag)
    decreases |fields|
  {
    var n := |fields|;
    if n == 0 then None
    else if fields[n - 1].tag == tag then Some(n - 1)
    else Lookup(fields[..n - 1], tag)
  }

  lemma LookupIsUnique(fields: seq<Field>, i: nat)
    requires WellFormed(fields) && i < |fields|
    ensures Lookup(fields, fields[i].tag) == Some(i)
  {
    var r := Lookup(fields, fields[i].tag);
    assert fields[r.value].tag == fields[i].tag;
  }

  /** `pb_field_iter_t`; the terminator of the table is at index |fields|. */
  class FieldIter {
    const fields: seq<Field>
    var pos: nat
    var requiredFieldIndex: nat

    /** Only an empty table leaves the iterator on the terminator. */
    ghost predicate Valid()
      reads this
    {
      && (pos < |fields| || (fields == [] && pos == 0))
      && requiredFieldIndex == RequiredBefore(fields, pos)
    }

    constructor (fields: seq<Field>)
      ensures this.fields == fields && Valid() && pos == 0
    {
      this.fields := fields;
      pos, requiredFieldIndex := 0, 0;
    }

    method Begin() returns (ok: bool)
      modifies this
      ensures Valid() && pos == 0 && ok == (fields != [])
    {
      pos, requiredFieldIndex := 0, 0;
      ok := pos < |fields|;
    }

    method Next() returns (ok: bool)
      requires Valid()
      modifies this
      ensures Valid() && ok == (old(pos) + 1 < |fields|) && pos == if ok then old(pos) + 1 else 0
    {
      if pos == |fields| {
        return false;
      }
      var prev := fields[pos];
      pos := pos + 1;
      if pos == |fields| {
        var _ := Begin();
        ok := false;
      } else {
        if prev.htype == Required {
          requiredFieldIndex := requiredFieldIndex + 1;
        }
        ok := true;
      }
    }

    /**
      * Searches once around the table from wherever the iterator stands. In an empty table the terminator itself
      * is compared, so tag 0 is "found" there.
      */
    method Find(tag: nat) returns (found: bool)
      requires Valid()
      modifies this
      ensures Valid()
      ensures found <==> if fields == [] then tag == 0 else Has(fields, tag)
      ensures found && fields != [] ==> fields[pos].tag == tag
      ensures !found ==> pos == old(pos)
    {
      var start := pos;
      while true
        invariant Valid()
        invariant fields == [] ==> pos == start
        invariant pos >= start ==> forall i | start <= i < pos :: fields[i].tag != tag
        invariant pos < start ==> forall i | start <= i < |fields| || 0 <= i < pos :: fields[i].tag != tag
        decreases if pos >= start then |fields| - pos + start else start - pos
      {
        if (if pos < |fields| then fields[pos].tag else 0) == tag {
          return true;
        }
        ghost var before := pos;
        var _ := Next();
        if pos == start {
          if fields != [] {
            assert forall i | 0 <= i < |fields| :: fields[i].tag != tag;
          }
          return false;
        }
      }
    }
  }

  /** From any position, the search ends at the only field with the tag, or tells there is none. */
  method FindFrom(iter: FieldIter, tag: nat) returns (r: Option<nat>)
    requires iter.Valid() && WellFormed(iter.fields) && iter.fields != []
    modifies iter
    ensures iter.Valid() && r == Lookup(iter.fields, tag)
    ensures r.Some? ==> iter.pos == r.value && iter.requiredFieldIndex == RequiredBefore(iter.fields, r.value)
  {
    var found := iter.Find(tag);
    if found {
      LookupIsUnique(iter.fields, iter.pos);
      r := Some(iter.pos);
    } else {
      r := None;
    }
  }
}
