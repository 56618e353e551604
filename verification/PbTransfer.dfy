/** How the speech client uses nanopb: a message becomes a string, a string a message, and what does not arrive. */
module PbTransfer {
  import opened Bytes
  import opened PbWire
  import opened PbTable
  import opened PbEncode
  import opened PbDecode
  import opened PbOutput
  import opened PbDecoder
  import opened PbRoundTrip

  const ENCODE_BUFFER := 0x10_0000     // 1 MB

  /** `NanoPBEncoder::SerializeToString`, with any callbacks. */
  method SerializeToString(script: Script, fields: seq<Field>, slots: seq<Slot>) returns (ok: bool, str: seq<byte>)
    requires HoldsAll(Pass(script, []), fields, slots)
    ensures var e := Enc(Pass(script, []), fields, slots);
            && (ok <==> e.Some? && |e.value| <= 1024 * 1024)
            && (ok ==> Some(str) == e)
  {
    hide HoldsAll, Enc;
    var buf := new byte[ENCODE_BUFFER];
    var stream := new OStream(buf, 0, ENCODE_BUFFER);
    assert buf[..0] == [];
    ok := stream.Encode(Pass(script, []), fields, slots);
    str := [];
    if ok {
      str := buf[..stream.bytesWritten];
      assert [] + Enc(Pass(script, []), fields, slots).value == Enc(Pass(script, []), fields, slots).value;
    }
  }

  /**
    * `NanoPBDecoder::ParseFromArray` at the other end. With the client's callbacks, what was serialised is accepted if
    * and only if no required field lacks its callback and every static string is terminated; what is received is then
    * the message that was sent, with its strings in the receiver's callbacks.
    */
  method Transfer(script: Script, ghost text: Texts, fields: seq<Field>, slots: seq<Slot>, dest: seq<Slot>)
      returns (sent: bool, accepted: bool, received: seq<Slot>)
    requires WellFormed(fields) && HoldsAll(Pass(script, []), fields, slots)
    requires |slots| == |fields| == |dest| && Client(script, text, fields, slots) && Receiver(fields, dest)
    ensures var e := Enc(Pass(script, []), fields, slots);
            && (sent <==> e.Some? && |e.value| <= 1024 * 1024)
            && (accepted <==> sent && SendableMessage(fields, slots))
            && (accepted ==> received == Norm(text, fields, dest, slots))
            && (accepted && Plain(fields) ==> Enc(Pass(script, []), fields, received) == e)
  {
    hide HoldsAll, Enc, Norm, SendableMessage, WellFormed, Decode, Plain, Client, Receiver;
    accepted, received := false, [];
    var str;
    sent, str := SerializeToString(script, fields, slots);
    if sent {
      RoundTrip(Pass(script, []), text, fields, dest, slots);
      if Plain(fields) {
        ReceivedEncodesAlike(Pass(script, []), text, fields, dest, slots);
      }
      accepted, received := DecodeBuffer(str, fields, dest);
    }
  }

  /** A string has arrived if and only if it is not empty: an empty one cannot be told from an absent one. */
  lemma StringsArrive(text: Texts, fields: seq<Field>, dest: seq<Slot>, slots: seq<Slot>, i: nat)
    requires i < |fields| == |slots| == |dest| && fields[i].atype == ByCallback
    requires slots[i].Call? && slots[i].fn.Encoder? && dest[i] == Call(Decoder(None))
    ensures Norm(text, fields, dest, slots)[i] == Call(Decoder(Some(text(slots[i].fn.id))))
            <==> text(slots[i].fn.id) != []
    ensures text(slots[i].fn.id) == [] ==>
              Norm(text, fields, dest, slots)[i] == Norm(text, fields, dest, slots[i := Call(Unset)])[i]
                  == Call(Decoder(None))
  {
    hide Norm;
    var _ := Norm(text, fields, dest, slots);
    var _ := Norm(text, fields, dest, slots[i := Call(Unset)]);
  }

  // ----- a table of the speech client

  /** The seven required strings of `AuthRequest`. */
  const AUTH_REQUEST: seq<Field> :=
    seq(7, i requires 0 <= i => Field(i + 1, StringField, Required, ByCallback, 16, 0, [], Raw([])))

  lemma {:induction false} CallbacksEncode(p: Pass, text: Texts, fields: seq<Field>, slots: seq<Slot>)
    requires |fields| == |slots| && Client(p.script, text, fields, slots)
    requires forall i | 0 <= i < |fields| :: fields[i].atype == ByCallback && slots[i].Call? && !slots[i].fn.Decoder?
    ensures Enc(p, fields, slots).Some?
  {
    if fields != [] {
      assert ClientSlot(p.script, text, fields[0], slots[0]);
      forall i | 0 <= i < |fields[1..]| ensures ClientSlot(p.script, text, fields[1..][i], slots[1..][i]) {
        assert ClientSlot(p.script, text, fields[i + 1], slots[i + 1]);
      }
      CallbacksEncode(p, text, fields[1..], slots[1..]);
    }
  }

  /**
    * An `AuthRequest` always encodes, whichever of its strings have been set, and is accepted if and only if all of
    * them have.
    */
  lemma AuthRequestNeedsEveryString(p: Pass, text: Texts, dest: seq<Slot>, slots: seq<Slot>)
    requires |slots| == |dest| == 7 && Client(p.script, text, AUTH_REQUEST, slots) && Receiver(AUTH_REQUEST, dest)
    requires forall i | 0 <= i < 7 :: slots[i].Call? && !slots[i].fn.Decoder?
    ensures var e := Enc(p, AUTH_REQUEST, slots);
            && e.Some?
            && (|e.value| < TWO_32 ==> (Decode(AUTH_REQUEST, dest, e.value).Some?
                                        <==> forall i | 0 <= i < 7 :: slots[i].fn.Encoder?))
  {
    hide Client, Receiver, Enc, Decode, Norm;
    CallbacksEncode(p, text, AUTH_REQUEST, slots);
    if |Enc(p, AUTH_REQUEST, slots).value| < TWO_32 {
      RoundTrip(p, text, AUTH_REQUEST, dest, slots);
      forall i | 0 <= i < 7 ensures Tracked(AUTH_REQUEST, i) && SendableSlot(AUTH_REQUEST[i], slots[i]) {
      }
    }
  }

  // ----- a string that is sent and cannot be received

  const NAME := Field(1, StringField, Required, Static, 1, 0, [], Raw([0]))

  /** A buffer without a terminator encodes, and the same table refuses what was encoded. */
  lemma UnterminatedString(p: Pass)
    ensures Enc(p, [NAME], [Req(Raw([65]))]) == Some([10, 1, 65])
    ensures Decode([NAME], [Req(Raw([0]))], [10, 1, 65]) == None
  {
    var b: seq<byte> := [65];
    var slots: seq<Slot> := [Req(Raw(b))];
    assert b[1..] == [] && StrLen(b) == 1 && b[..1] == b;
    assert EncScalar(NAME, Raw(b)) == Some(EncString(b));
    assert EncString(b) == [1, 65] && EncTag(1, 2) == [10];
    assert EncValue(p, NAME, Raw(b)) == Some([1, 65]);
    assert [10] + [1, 65] == [10, 1, 65];
    assert EncTagged(p, NAME, Raw(b)) == Some([10, 1, 65]);
    assert EncSlot(p, NAME, slots[0]) == Some([10, 1, 65]);
    assert Enc(p, [NAME][1..], slots[1..]) == Some([]);
    assert [10, 1, 65] + [] == [10, 1, 65];
    assert !Sendable(NAME, Raw(b)) && !SendableSlot(NAME, slots[0]) && !SendableMessage([NAME], slots);
    RoundTrip(p, id => [], [NAME], [Req(Raw([0]))], slots);
  }
}
